# Supysonic folder scan and API parameters, modelled in Dafny

This project models two small pieces of Supysonic, a Python server for the Subsonic API.

The first piece is the `folder scan` command of the management command line, `supysonic/cli.py`:

- **Mode choice.** With no option, the scan goes to the background daemon first and runs in the calling process only when the daemon cannot be reached. `--background` requires the daemon. `--foreground` never asks the daemon to scan.
- **Foreground driver.** It does a best-effort "is the daemon already scanning" check and splits the `scanner_extensions` setting on spaces. It sets up watch hooks that remove and re-add a folder's path in the daemon's watch set and ignore an unreachable daemon. It resolves the requested names against the root folders and renders the statistics report.
- **Throttled progress display.** `TimedProgressDisplay` writes `Scanning '<name>': <n> files scanned` over its previous text at most once per interval.
- **User commands.** `user rename` and `user setroles`.

The second piece is the request-parameter logic of the API blueprint, `supysonic/api/__init__.py`:

- route registration under `endpoint` and `endpoint.view`;
- the choice of response formatter from `f`;
- the `enc:`-hex password decoding;
- reading an entity identifier as an integer (folders) or a UUID (everything else).

## How the model is built

- The daemon is seen only through its replies: `Reply<T> = Answer(T) | Unavailable`.
- The folder table is a sequence of `(name, path, root)` records in storage order.
- The user table is a map from login to user record.
- The scanner is seen only through the statistics it returns.
- What a command does is a log of `Effect`s: daemon calls, echoed lines, the not-found notice, and the scanner run with its set-up.
- Time is counted in integer clock ticks. The progress display reads the clock twice, once to decide (line 32) and once to record the time (line 39), so a call takes both readings as parameters.
- Text is `seq<char>` of Unicode scalar values. Bytes are integers 0..255.
- `binascii.unhexlify`, `str.encode`/`bytes.decode("utf-8")`, `str.split`, `str.join`, `str(int)`, `int(str)` and `uuid.UUID(str)` are written out as functions. They are `Hex`, `Utf8` and `Text`, plus `ParseUuid` in `Api`.

## Behaviour worth knowing

- **The report opens with a blank line.** The first echoed line is `"\nScanning done"` (`supysonic/cli.py:214`).
- **The first progress line waits for the clock.** The display starts with `last_display = 0`, and its test `now - last_display > interval` is strict. So with ticks counted from 0, calls at 0, 1, 2 and 6 write only once, at 6 (`Progress.TicksFromZero`). With a wall clock far past the interval, the first call writes at once (`Progress.TicksFromClock`).
- **The previous progress text is not erased.** The display writes backspaces, which only move the cursor back. When the new text is shorter than the previous one, the end of the previous text stays visible after it (`Progress.CallOnScreen`). This happens, for example, when the scan moves to a folder with a shorter name.
- **The not-found notice is a set.** It lists the unknown names in Python set order, so the model keeps them as a set.
- **The busy check runs in the fallback too.** After an unreachable daemon refuses a scan in automatic mode, the foreground driver still queries the daemon once for its progress.
- **An empty extension setting is not split.** An empty `scanner_extensions` string is falsy, so it reaches the scanner as the empty string itself, while an absent one reaches it as `None` (`supysonic/cli.py:172-174`).

## Model

| member | source | states |
|---|---|---|
| Progress.NewDisplay | supysonic/cli.py:25-29 | a new display has interval 5 by default, has written nothing, and counts its last write at time 0 |
| Progress.Call | supysonic/cli.py:31-39 | inside the interval (`now - last <= interval`) nothing is written and the state is unchanged; past it, `last_len` backspaces and then the progress text are written, and the state becomes (second clock reading, length of that text) |
| Progress.CallOnScreen | supysonic/cli.py:33-38 | on a terminal line the new text lands where the old text began, with the cursor right after it; a longer or equal text hides the old one, a shorter one leaves the old tail visible |
| Progress.RunThrottled | supysonic/cli.py:31-39 | with a clock that never goes back, any two calls that both write are separated by more than the interval |
| Progress.TicksFromZero | supysonic/cli.py:28-32 | with ticks from 0 and interval 5, calls at 0, 1, 2, 6 write only at 6 |
| Progress.TicksFromClock | supysonic/cli.py:25-39 | with a clock past the interval, calls at t, t+1, t+2, t+6 write at t and at t+6 only |
| FolderScan.ExtensionsOf | supysonic/cli.py:172-174 | an absent setting is passed on as `None` and an empty one as the empty string, unsplit; a non-empty one is split on single spaces into space-free words that re-join to the setting |
| FolderScan.ExtensionsOfWords | supysonic/cli.py:172-174 | space-free words joined by single spaces are split back into exactly those words |
| FolderScan.UnwatchFolder | supysonic/cli.py:176-180 | the pre-folder hook makes exactly one remove-watch call with the folder's path and completes whatever the daemon replies |
| FolderScan.WatchFolder | supysonic/cli.py:182-186 | the post-folder hook makes exactly one add-watch call with the folder's path and completes whatever the daemon replies |
| FolderScan.CallHook | supysonic/cli.py:176-186 | running a hook on a folder makes exactly one daemon call, a remove-watch exactly for the unwatch hook and otherwise an add-watch, for that folder's path, and always completes |
| FolderScan.RootNames | supysonic/cli.py:206-209 | a name is listed exactly when some root folder record carries it |
| FolderScan.SelectRoots | supysonic/cli.py:199-200 | a name is selected exactly when it was asked for and is a root folder name |
| FolderScan.ResolveFolders | supysonic/cli.py:197-209 | with names given, the queue holds exactly the requested root names and the notice lists exactly requested minus found, and appears only if that set is non-empty; with none given, every root folder is queued in storage order |
| FolderScan.Report | supysonic/cli.py:214-228 | `Scanning done`, the `Added:` line, the `Deleted:` line, then `Errors in:` and one `- <err>` line per error, if and only if there are errors |
| FolderScan.ReadCountsLine | supysonic/cli.py:215-224 | a counts line is seven space-separated words and reads back as the counts it shows |
| FolderScan.ReadBackReport | supysonic/cli.py:214-228 | the statistics can be read back from the report's lines |
| FolderScan.ReportExample | supysonic/cli.py:214-224 | 2/5/40 added, nothing deleted and no errors renders as three lines and no error block |
| FolderScan.ForegroundScan | supysonic/cli.py:162-212 | the progress query comes first and is the only daemon call the driver makes outside the watch hooks; a daemon answering that it scans aborts before anything is queued; an unreachable one does not, and the scanner then runs once with the resolved queue, the extension setting, the symlink setting, a fresh display and the unwatch/watch hooks as folder start/end callbacks, followed by the report |
| FolderScan.ForegroundHooks | supysonic/cli.py:176-194 | every scanner run of a foreground scan takes a folder out of the daemon's watch set before scanning it and puts it back afterwards, whatever the daemon replies |
| FolderScan.FolderScanCommand | supysonic/cli.py:129-159 | the daemon is asked to scan first exactly when the mode is not foreground; the command fails only with the daemon-required or the already-scanning message; it fails for lack of the daemon exactly in background mode with an unreachable daemon, and because a scan is running exactly when the foreground driver runs and the daemon reports a scan; the stderr fallback notice appears exactly in automatic mode with an unreachable daemon |
| FolderScan.ModePolicy | supysonic/cli.py:136-159 | automatic mode: a daemon that accepts leaves no local scan; an unreachable one gives the stderr notice followed by exactly one foreground run. Background: no local scan, and an unreachable daemon fails. Foreground: never asks the daemon to scan |
| FolderScan.ModeInvariant | supysonic/cli.py:142-159 | a local scan never happens in background mode, the daemon is asked to scan exactly when the mode is not foreground, and the scanner runs at most once |
| FolderScan.UnavailablePolicy | supysonic/cli.py:144-186 | an unreachable daemon is fatal to `--background` but swallowed by both watch hooks, by the busy check, and by the automatic fallback |
| UserCommands.UserRename | supysonic/cli.py:348-362 | an empty name is refused; equal names are a no-op, even for a missing user; a missing user or a taken new name is refused; otherwise the rename succeeds and echoes `User '<name>' renamed to '<newname>'`, and only that user moves to the new name, with the rest of its record and every other user untouched |
| UserCommands.RenameBack | supysonic/cli.py:354-361 | renaming back after a successful rename restores the table |
| UserCommands.UserRoles | supysonic/cli.py:309-318 | a missing user is refused; otherwise admin and jukebox change only when given, and the granted/revoked line for admin is echoed, then the one for jukebox, each only when that role is given; nothing else changes |
| UserCommands.RolesIdempotent | supysonic/cli.py:313-318 | setting the same roles twice gives the table that setting them once gives |
| UserCommands.NoRolesNoChange | supysonic/cli.py:313-318 | with neither role given the table is unchanged and nothing is echoed |
| Api.ApiRouting | supysonic/api/__init__.py:26-33 | two rules are appended, for `e` and `e.view`, both with the view and methods {GET, POST}; the view is returned unchanged |
| Api.RegisterAllRoutes | supysonic/api/__init__.py:26-33 | after decorating a list of endpoints, rule 2k is endpoint k and rule 2k+1 its `.view` form, all GET and POST |
| Api.SetFormatter | supysonic/api/__init__.py:36-45 | `jsonp` gives JSONP with the callback, `json` gives JSON, and any other or absent `f` gives XML |
| Api.CallbackOnlyForJsonp | supysonic/api/__init__.py:39-45 | the callback affects the choice only for `jsonp` |
| Api.DecodePassword | supysonic/api/__init__.py:48-55 | no `enc:` prefix or malformed hex returns the password as given |
| Api.DecodeEncodedPassword | supysonic/api/__init__.py:52-53 | `enc:` followed by the hex of the UTF-8 bytes of any text, in lower- or upper-case hex, decodes to that text |
| Api.MalformedHexKept | supysonic/api/__init__.py:52-55 | an odd-length hex part or one with a non-hex character returns the input, prefix included |
| Api.InvalidUtf8Kept | supysonic/api/__init__.py:52-55 | well-formed hex that spells invalid UTF-8 returns the input, prefix included |
| Api.DecodedMeansEncoded | supysonic/api/__init__.py:48-55 | if decoding changes the password, the input was `enc:` followed by hex that spells exactly the UTF-8 of the result |
| Api.InvalidUtf8Example | supysonic/api/__init__.py:52-55 | `enc:ff` comes back unchanged |
| Api.EmptyHexExample | supysonic/api/__init__.py:52-53 | `enc:` decodes to the empty password |
| Api.GetEntityId | supysonic/api/__init__.py:107-119 | every refusal is `GenericError("Invalid ID")`; a folder id given as an integer is that integer; folder id text is accepted exactly when it parses as an integer and gives that integer; a UUID object is refused as a folder id; other ids are accepted only from text that parses as a UUID and give that UUID; the key's kind follows the class |
| Api.ParseUuid | supysonic/api/__init__.py:117 | an accepted UUID fits 128 bits; text shorter than 32 characters is refused; 32 bare hex digits read as their hexadecimal value |
| Api.FolderIdRoundTrip | supysonic/api/__init__.py:109-115 | a folder id spelled in decimal, negative or not, reads back as that integer |
| Api.FolderRejectsUuidText | supysonic/api/__init__.py:112-115 | the text of a UUID is refused as a folder id |
| Api.UuidIdRoundTrip | supysonic/api/__init__.py:116-119 | the canonical text of a UUID reads back as that UUID for every non-folder class |
| Hex.Unhexlify | supysonic/api/__init__.py:53 | unhexlify succeeds exactly on even-length all-hex text, giving half as many bytes |
| Hex.UnhexlifyHexlify | supysonic/api/__init__.py:53 | hex in either letter case decodes back to the bytes it spells |
| Utf8.DecodeEncode | supysonic/api/__init__.py:53 | decoding the UTF-8 encoding of any text gives the text back |
| Utf8.EncodeDecode | supysonic/api/__init__.py:53 | whatever decodes successfully encodes back to the same bytes |
| Text.JoinSplit | supysonic/cli.py:174 | re-joining the pieces of a split with the same separator gives the text back |
| Text.SplitJoin | supysonic/cli.py:174 | splitting a join of separator-free pieces gives the pieces back |
| Text.ParseIntToString | supysonic/api/__init__.py:113 | `int(str(i)) == i` for every integer under the modelled decimal grammar |

## Left out

- Click, Pony ORM and Flask plumbing is not modelled: decorators, `db_session`, `request.values`, the internals of `Blueprint.add_url_rule`, and `click.echo`. Echoed text is an `Echo`/`EchoErr` effect or a line of a result.
- Daemon IPC is not modelled. Each call is reduced to its reply, and only the "unavailable" failure is modelled. Any other exception a call could raise would propagate in the source; it is left out.
- The scanner is out of scope: file discovery, tag reading, and when it calls the watch hooks and the progress display. It is reduced to its set-up and the statistics it returns. The hooks and the display are modelled on their own.
- `scanner.run()` raising is not modelled; the scan always returns statistics.
- Wall-clock floats are integer ticks.
- The other commands in `supysonic/cli.py` are not modelled: `folder list/add/delete`, `user list/add/delete/changepass` and `main()`. They are thin calls into managers that are not part of this model.
- `get_client_prefs`, `get_entity` and `authorize` in `supysonic/api/__init__.py` are not modelled. They are a database transaction, a database lookup, and a call into `UserManager.try_auth`, which is not part of this model.
- `supysonic/server/_base.py` has no logic of its own. `tests/issue139.py` and `tests/issue148.py` only exercise the scanner on media files.
- Api.GetEntityId: Python's `int()` also accepts surrounding whitespace, underscores between digits and non-ASCII decimal digits; the model accepts only an optional sign and ASCII digits.
- Api.GetEntityId: an object that is neither text, a UUID nor an integer (such as `None`, which makes `int()` raise `TypeError`) is not modelled.
- Api.GetEntityId: the `int(hex, 16)` inside `uuid.UUID` would also take a sign, underscores or a `0x` prefix in the 32 remaining characters; the model takes exactly 32 hex digits.
- Api.DecodePassword: Python text can hold lone surrogates, which `encode("utf-8")` rejects (the password then comes back as given); Dafny characters are scalar values, so such text cannot be written.
- Api.SetFormatter: the formatter classes' own output is not modelled, only which one is chosen.
- FolderScan.ResolveFolders: the order of names inside the "No such folder(s)" line is Python's set order, which is unspecified; the model keeps the set.
- UserCommands.UserRename: the table is a map keyed by login, so unique names are assumed; the database's uniqueness constraint is not modelled.
