/**
 The `user rename` and `user setroles` commands over the user table, seen as
 a map from login name to user record.
 */
module UserCommands {
  import opened Common

  /** A user account; the password and other columns play no part here. */
  datatype User = User(name: string, mail: string, admin: bool, jukebox: bool)

  /** The user table: every user filed under its own name. */
  type Users = map<string, User>

  predicate KeyedByName(users: Users)
  {
    forall n :: n in users ==> users[n].name == n
  }

  /** A command that completed, with the table after it and the lines it echoed, or a refusal. */
  datatype CommandResult = Done(users: Users, echoes: seq<string>) | Refused(message: string)

  const MissingName: string := "Missing user current name or new name"
  const NoSuchUser: string := "No such user"
  const NameTaken: string := "This name is already taken"

  /**
   `user rename NAME NEWNAME`: both names are needed; renaming to the same
   name does nothing, without even looking the user up; otherwise the user
   must exist and the new name must be free, and only that user's name
   changes.
   */
  function UserRename(users: Users, name: string, newName: string): (r: CommandResult)
    ensures name == "" || newName == "" ==> r == Refused(MissingName)
    ensures name != "" && newName != "" && name == newName ==> r == Done(users, [])
    ensures r.Refused? && name != "" && newName != "" ==>
              (r.message == NoSuchUser <==> name !in users) &&
              (r.message == NameTaken <==> name in users && newName in users)
    ensures name != "" && newName != "" && name != newName && name in users && newName !in users ==>
              r.Done? && r.echoes == ["User '" + name + "' renamed to '" + newName + "'"]
    ensures r.Done? ==> |r.users| == |users| && (KeyedByName(users) ==> KeyedByName(r.users))
    ensures r.Done? && name != newName ==>
              && name in users && newName !in users
              && r.users.Keys == users.Keys - {name} + {newName}
              && r.users[newName] == users[name].(name := newName)
              && (forall n :: n in users && n != name ==> r.users[n] == users[n])
  {
    if name == "" || newName == "" then Refused(MissingName)
    else if name == newName then Done(users, [])
    else if name !in users then Refused(NoSuchUser)
    else if newName in users then Refused(NameTaken)
    else
      var renamed := (users - {name})[newName := users[name].(name := newName)];
      assert renamed.Keys == users.Keys - {name} + {newName};
      assert |renamed.Keys| == |users.Keys|;
      Done(renamed, ["User '" + name + "' renamed to '" + newName + "'"])
  }

  /** A rename is undone by renaming back. */
  lemma RenameBack(users: Users, name: string, newName: string)
    requires KeyedByName(users)
    requires UserRename(users, name, newName).Done?
    ensures UserRename(UserRename(users, name, newName).users, newName, name).Done?
    ensures UserRename(UserRename(users, name, newName).users, newName, name).users == users
  {
    if name != newName {
      var once := UserRename(users, name, newName).users;
      var twice := UserRename(once, newName, name).users;
      assert twice.Keys == users.Keys;
      assert forall n :: n in users ==> twice[n] == users[n];
    }
  }

  /** `Granted 'u' admin rights` or `Revoked 'u' admin rights`. */
  function RoleChange(userName: string, role: string, value: bool): (line: string)
  {
    (if value then "Granted" else "Revoked") + " '" + userName + "' " + role + " rights"
  }

  /**
   `user setroles NAME [-A/-a] [-J/-j]`: the user must exist; each role given
   on the command line is set and echoed, a role not given is left alone.
   */
  function UserRoles(users: Users, name: string, admin: Option<bool>, jukebox: Option<bool>): (r: CommandResult)
    ensures r.Refused? <==> name !in users
    ensures r.Refused? ==> r.message == NoSuchUser
    ensures r.Done? ==>
              && (KeyedByName(users) ==> KeyedByName(r.users))
              && r.users.Keys == users.Keys
              && (forall n :: n in users && n != name ==> r.users[n] == users[n])
              && r.users[name].name == users[name].name
              && r.users[name].mail == users[name].mail
              && r.users[name].admin == (if admin.Some? then admin.value else users[name].admin)
              && r.users[name].jukebox == (if jukebox.Some? then jukebox.value else users[name].jukebox)
              && r.echoes == (if admin.Some? then [RoleChange(name, "admin", admin.value)] else [])
                              + (if jukebox.Some? then [RoleChange(name, "jukebox", jukebox.value)] else [])
  {
    if name !in users then Refused(NoSuchUser)
    else
      var u := users[name];
      var u1 := if admin.Some? then u.(admin := admin.value) else u;
      var e1 := if admin.Some? then [RoleChange(name, "admin", admin.value)] else [];
      var u2 := if jukebox.Some? then u1.(jukebox := jukebox.value) else u1;
      var e2 := if jukebox.Some? then [RoleChange(name, "jukebox", jukebox.value)] else [];
      Done(users[name := u2], e1 + e2)
  }

  /** Setting the same roles twice leaves the table as setting them once. */
  lemma RolesIdempotent(users: Users, name: string, admin: Option<bool>, jukebox: Option<bool>)
    requires name in users
    ensures var once := UserRoles(users, name, admin, jukebox).users;
            UserRoles(once, name, admin, jukebox).users == once
  {
    var once := UserRoles(users, name, admin, jukebox).users;
    var twice := UserRoles(once, name, admin, jukebox).users;
    assert twice.Keys == once.Keys;
    assert forall n :: n in once ==> twice[n] == once[n];
  }

  /** With no role given, the command changes nothing and echoes nothing. */
  lemma NoRolesNoChange(users: Users, name: string)
    requires name in users
    ensures UserRoles(users, name, None, None) == Done(users, [])
  {
    assert users[name := users[name]] == users;
  }
}
