/**
 The request-parameter logic of the Subsonic API blueprint: how routes are
 registered, how the response format is chosen, how an obfuscated password is
 decoded and how an entity identifier is read.
 */
module Api {
  import opened Common
  import opened Text
  import opened Hex
  import Utf8

  // ---------------------------------------------------------------------------
  // Route registration

  /** A view function, known by its name. */
  datatype View = View(name: string)

  /** One URL rule of the blueprint: the URL, its view and its HTTP methods. */
  datatype Rule = Rule(url: string, view: View, methods: set<string>)

  const ViewMethods: set<string> := {"GET", "POST"}

  /**
   The `api_routing(endpoint)` decorator applied to `view`: two rules are
   appended, one for `endpoint` and one for `endpoint.view`, both answering
   GET and POST; the decorated function is handed back unchanged.
   */
  function ApiRouting(endpoint: string, view: View, rules: seq<Rule>): (r: (seq<Rule>, View))
    ensures r.1 == view
    ensures |r.0| == |rules| + 2 && r.0[..|rules|] == rules
    ensures r.0[|rules|] == Rule(endpoint, view, {"GET", "POST"})
    ensures r.0[|rules| + 1] == Rule(endpoint + ".view", view, {"GET", "POST"})
  {
    (rules + [Rule(endpoint, view, ViewMethods), Rule(endpoint + ".view", view, ViewMethods)], view)
  }

  /** The rules after decorating each `(endpoint, view)` pair in turn. */
  function RegisterAll(routes: seq<(string, View)>): (rules: seq<Rule>)
  {
    if |routes| == 0 then []
    else ApiRouting(routes[|routes| - 1].0, routes[|routes| - 1].1, RegisterAll(routes[..|routes| - 1])).0
  }

  /**
   After registering a list of endpoints, a URL is routed exactly when it is
   one of the endpoints or one of them followed by `.view`, the rule points at
   that endpoint's view, and every rule answers GET and POST only.
   */
  lemma {:induction false} RegisterAllRoutes(routes: seq<(string, View)>)
    ensures |RegisterAll(routes)| == 2 * |routes|
    ensures forall i :: 0 <= i < |RegisterAll(routes)| ==> RegisterAll(routes)[i].methods == {"GET", "POST"}
    ensures forall k :: 0 <= k < |routes| ==>
              RegisterAll(routes)[2 * k] == Rule(routes[k].0, routes[k].1, {"GET", "POST"}) &&
              RegisterAll(routes)[2 * k + 1] == Rule(routes[k].0 + ".view", routes[k].1, {"GET", "POST"})
  {
    if |routes| > 0 {
      var init := routes[..|routes| - 1];
      var last := routes[|routes| - 1];
      RegisterAllRoutes(init);
      var before := RegisterAll(init);
      var after := RegisterAll(routes);
      assert after == before + [Rule(last.0, last.1, ViewMethods), Rule(last.0 + ".view", last.1, ViewMethods)];
      forall k | 0 <= k < |routes|
        ensures after[2 * k] == Rule(routes[k].0, routes[k].1, {"GET", "POST"})
        ensures after[2 * k + 1] == Rule(routes[k].0 + ".view", routes[k].1, {"GET", "POST"})
      {
        if k < |init| {
          assert routes[k] == init[k];
          assert after[2 * k] == before[2 * k] && after[2 * k + 1] == before[2 * k + 1];
        }
      }
    }
  }

  // ---------------------------------------------------------------------------
  // Response formatter

  /** The response formatters; JSONP carries the `callback` request value. */
  datatype Formatter = XmlFormatter | JsonFormatter | JsonpFormatter(callback: Option<string>)

  /**
   The formatter chosen from the `f` and `callback` request values: `jsonp`
   and `json` pick their formatter, anything else, absent included, picks XML.
   */
  function SetFormatter(f: Option<string>, callback: Option<string>): (r: Formatter)
    ensures r.JsonpFormatter? <==> f == Some("jsonp")
    ensures r.JsonpFormatter? ==> r.callback == callback
    ensures r.JsonFormatter? <==> f == Some("json")
    ensures r.XmlFormatter? <==> (f != Some("jsonp") && f != Some("json"))
  {
    if f == Some("jsonp") then JsonpFormatter(callback)
    else if f == Some("json") then JsonFormatter
    else XmlFormatter
  }

  /** Outside JSONP the callback value plays no part in the choice. */
  lemma CallbackOnlyForJsonp(f: Option<string>, c1: Option<string>, c2: Option<string>)
    ensures f != Some("jsonp") ==> SetFormatter(f, c1) == SetFormatter(f, c2)
    ensures SetFormatter(f, c1) == SetFormatter(f, c2) ==> f != Some("jsonp") || c1 == c2
  {
  }

  // ---------------------------------------------------------------------------
  // Password decoding

  const EncPrefix: string := "enc:"

  /**
   `decode_password`: a password written `enc:` followed by the hex spelling
   of its UTF-8 bytes is decoded; any password without the prefix, and any
   whose hex part is malformed or does not spell valid UTF-8, is returned as
   given, prefix included.
   */
  function DecodePassword(password: string): (r: string)
    ensures !StartsWith(password, EncPrefix) ==> r == password
    ensures StartsWith(password, EncPrefix) && Unhexlify(password[4..]).None? ==> r == password
  {
    if !StartsWith(password, EncPrefix) then password
    else
      match Unhexlify(password[4..])
      case None => password
      case Some(bytes) =>
        match Utf8.Decode(bytes)
        case None => password
        case Some(text) => text
  }

  /** The obfuscated form a client sends for `text`, with hex letters in either case. */
  function EncodePassword(text: string, letters: LetterCase): (p: string)
    ensures StartsWith(p, EncPrefix)
  {
    EncPrefix + Hexlify(Utf8.Encode(text), letters)
  }

  /** Every text survives being obfuscated and decoded, with lower- or upper-case hex. */
  lemma DecodeEncodedPassword(text: string, letters: LetterCase)
    ensures DecodePassword(EncodePassword(text, letters)) == text
  {
    var p := EncodePassword(text, letters);
    assert p[4..] == Hexlify(Utf8.Encode(text), letters);
    UnhexlifyHexlify(Utf8.Encode(text), letters);
    Utf8.DecodeEncode(text);
  }

  /** A hex part of odd length, or holding a non-hex character, leaves the password as given. */
  lemma MalformedHexKept(password: string)
    requires StartsWith(password, EncPrefix)
    requires |password| % 2 == 1 || exists i :: 4 <= i < |password| && !IsHexDigit(password[i])
    ensures DecodePassword(password) == password
  {
    var h := password[4..];
    if |password| % 2 == 0 {
      var i :| 4 <= i < |password| && !IsHexDigit(password[i]);
      assert h[i - 4] == password[i];
    }
  }

  /** Well-formed hex that spells invalid UTF-8 leaves the password as given. */
  lemma InvalidUtf8Kept(password: string)
    requires StartsWith(password, EncPrefix)
    requires Unhexlify(password[4..]).Some? && Utf8.Decode(Unhexlify(password[4..]).value).None?
    ensures DecodePassword(password) == password
  {
  }

  /**
   Conversely, whenever decoding changes the password, it was an `enc:`
   password whose hex part spells exactly the UTF-8 bytes of the result.
   */
  lemma DecodedMeansEncoded(password: string)
    requires DecodePassword(password) != password
    ensures StartsWith(password, EncPrefix)
    ensures Unhexlify(password[4..]) == Some(Utf8.Encode(DecodePassword(password)))
  {
    var bytes := Unhexlify(password[4..]).value;
    Utf8.EncodeDecode(bytes);
  }

  /** `enc:ff`: the byte FF never starts a UTF-8 sequence, so the input comes back. */
  lemma InvalidUtf8Example()
    ensures DecodePassword("enc:ff") == "enc:ff"
  {
    assert "enc:ff"[4..] == "ff";
    var h := "ff";
    assert IsHexDigit(h[0]) && IsHexDigit(h[1]) && Unhexlify(h[2..]) == Some([]);
    var bytes := Unhexlify(h).value;
    assert |bytes| == 1 && bytes[0] == 255;
    assert Utf8.LeadLength(bytes) == 0;
  }

  /** `enc:` alone spells no bytes and decodes to the empty password. */
  lemma EmptyHexExample()
    ensures DecodePassword("enc:") == ""
  {
    assert "enc:"[4..] == "";
  }

  // ---------------------------------------------------------------------------
  // Entity identifiers

  /** The entity class whose identifier is read: folders have integer keys, the rest UUIDs. */
  datatype EntityClass = Folder | UuidKeyed(name: string)

  /** The value handed in as an identifier: request text, a UUID object or an integer. */
  datatype IdArg = IdText(text: string) | IdUuid(uuid: nat) | IdInt(number: int)

  /** An identifier in its proper type. */
  datatype EntityId = IntKey(key: int) | UuidKey(uuid: nat)

  /** What `get_entity_id` returns or raises. */
  datatype IdResult = Id(id: EntityId) | GenericError(message: string)

  const InvalidId: string := "Invalid ID"

  /** Python's `s.replace(pat, "")`: every non-overlapping occurrence, scanning left to right, removed. */
  function RemoveAll(s: string, pat: string): (r: string)
    requires |pat| >= 1
    ensures |r| <= |s|
  {
    if |s| == 0 then ""
    else if StartsWith(s, pat) then RemoveAll(s[|pat|..], pat)
    else [s[0]] + RemoveAll(s[1..], pat)
  }

  /** Python's `s.strip("{}")`. */
  function StripBraces(s: string): (r: string)
    ensures |r| <= |s|
  {
    if |s| > 0 && (s[0] == '{' || s[0] == '}') then StripBraces(s[1..])
    else if |s| > 0 && (s[|s| - 1] == '{' || s[|s| - 1] == '}') then StripBraces(s[..|s| - 1])
    else s
  }

  /** Python's `s.replace(c, "")` for one character. */
  function RemoveChar(s: string, c: char): (r: string)
    ensures c !in r
    ensures |r| <= |s|
  {
    if |s| == 0 then ""
    else if s[0] == c then RemoveChar(s[1..], c)
    else [s[0]] + RemoveChar(s[1..], c)
  }

  /**
   `uuid.UUID(text)`: drop `urn:` and `uuid:`, strip surrounding braces, drop
   hyphens; what remains must be exactly 32 hex digits.
   */
  function ParseUuid(text: string): (r: Option<nat>)
    ensures r.Some? ==> r.value < Pow16(32)
    ensures |text| < 32 ==> r == None
    ensures |text| == 32 && AllHex(text) ==> r == Some(HexNumber(text))
  {
    var h := RemoveChar(StripBraces(RemoveAll(RemoveAll(text, "urn:"), "uuid:")), '-');
    BareHexUnchanged(text);
    if |h| == 32 && AllHex(h) then Some(HexNumber(h)) else None
  }

  /** Thirty-two bare hex digits pass the clean-up steps of `uuid.UUID` untouched. */
  lemma BareHexUnchanged(text: string)
    ensures |text| == 32 && AllHex(text) ==>
              RemoveChar(StripBraces(RemoveAll(RemoveAll(text, "urn:"), "uuid:")), '-') == text
  {
    if |text| == 32 && AllHex(text) {
      assert text[0..32] == text;
      NotInHex(text, 'u', 0, 32);
      NotInHex(text, '-', 0, 32);
      RemoveAllAbsent(text, "urn:");
      RemoveAllAbsent(text, "uuid:");
      assert IsHexDigit(text[0]) && IsHexDigit(text[31]);
      assert StripBraces(text) == text;
      RemoveCharAbsent(text, '-');
    }
  }

  /** `str(uuid)`: 32 lower-case hex digits grouped 8-4-4-4-12 by hyphens. */
  function FormatUuid(u: nat): (s: string)
    requires u < Pow16(32)
    ensures |s| == 36 && s[8] == '-'
  {
    var h := HexFixed(u, 32);
    h[..8] + "-" + h[8..12] + "-" + h[12..16] + "-" + h[16..20] + "-" + h[20..]
  }

  /**
   `get_entity_id(cls, eid)`: a folder id is an integer (a UUID object or
   text that is not an integer is refused), any other id is a UUID read from
   text (anything else, a UUID object included, is refused). Every refusal is
   a `GenericError` saying the id is invalid.
   */
  function GetEntityId(cls: EntityClass, eid: IdArg): (r: IdResult)
    ensures r.GenericError? ==> r.message == InvalidId
    ensures r.Id? ==> (cls == Folder <==> r.id.IntKey?)
    ensures cls == Folder && eid.IdUuid? ==> r.GenericError?
    ensures cls != Folder && !eid.IdText? ==> r.GenericError?
    ensures cls == Folder && eid.IdText? ==> (r.Id? <==> ParseInt(eid.text).Some?)
    ensures cls != Folder && eid.IdText? ==> (r.Id? <==> ParseUuid(eid.text).Some?)
    ensures cls == Folder && eid.IdInt? ==> r == Id(IntKey(eid.number))
    ensures cls == Folder && eid.IdText? && r.Id? ==> r.id == IntKey(ParseInt(eid.text).value)
    ensures cls != Folder && r.Id? ==> eid.IdText? && r.id == UuidKey(ParseUuid(eid.text).value)
  {
    if cls == Folder then
      match eid
      case IdUuid(_) => GenericError(InvalidId)
      case IdInt(i) => Id(IntKey(i))
      case IdText(s) =>
        match ParseInt(s)
        case None => GenericError(InvalidId)
        case Some(i) => Id(IntKey(i))
    else
      match eid
      case IdText(s) =>
        (match ParseUuid(s)
         case None => GenericError(InvalidId)
         case Some(u) => Id(UuidKey(u)))
      case _ => GenericError(InvalidId)
  }

  /** A folder id spelled in decimal, negative ones included, reads back as that integer. */
  lemma FolderIdRoundTrip(i: int)
    ensures GetEntityId(Folder, IdText(IntToString(i))) == Id(IntKey(i))
  {
    ParseIntToString(i);
  }

  /** The text of a UUID is never a valid folder id. */
  lemma FolderRejectsUuidText(u: nat)
    requires u < Pow16(32)
    ensures GetEntityId(Folder, IdText(FormatUuid(u))) == GenericError(InvalidId)
  {
    var s := FormatUuid(u);
    assert !IsDigit(s[8]);
  }

  lemma {:induction false} RemoveAllAbsent(s: string, pat: string)
    requires |pat| >= 1 && pat[0] !in s
    ensures RemoveAll(s, pat) == s
  {
    if |s| > 0 {
      assert |pat| <= |s| ==> s[..|pat|][0] == s[0];
      RemoveAllAbsent(s[1..], pat);
      assert [s[0]] + s[1..] == s;
    }
  }

  lemma {:induction false} RemoveCharAppend(a: string, b: string, c: char)
    ensures RemoveChar(a + b, c) == RemoveChar(a, c) + RemoveChar(b, c)
  {
    if |a| > 0 {
      assert (a + b)[1..] == a[1..] + b;
      RemoveCharAppend(a[1..], b, c);
    } else {
      assert a + b == b;
    }
  }

  lemma {:induction false} RemoveCharAbsent(s: string, c: char)
    requires c !in s
    ensures RemoveChar(s, c) == s
  {
    if |s| > 0 {
      RemoveCharAbsent(s[1..], c);
      assert [s[0]] + s[1..] == s;
    }
  }

  /** A character that is not a hex digit does not occur in hex text, nor in any part of it. */
  lemma NotInHex(s: string, c: char, i: nat, j: nat)
    requires AllHex(s) && !IsHexDigit(c) && i <= j <= |s|
    ensures c !in s[i..j]
  {
  }

  /** Removing hyphens before a hyphen-free group keeps the group as it is. */
  lemma RemoveHyphenBefore(x: string, y: string)
    requires '-' !in y
    ensures RemoveChar(x + "-" + y, '-') == RemoveChar(x, '-') + y
  {
    var xh := x + "-";
    RemoveCharAppend(xh, y, '-');
    RemoveCharAppend(x, "-", '-');
    assert "-"[1..] == "";
    assert RemoveChar("-", '-') == "";
    RemoveCharAbsent(y, '-');
    calc {
      RemoveChar(x + "-" + y, '-');
      RemoveChar(xh, '-') + RemoveChar(y, '-');
      RemoveChar(x, '-') + RemoveChar("-", '-') + y;
    }
    assert RemoveChar(x, '-') + "" == RemoveChar(x, '-');
  }

  /** One more group: removing hyphens from `x-group` extends the digits read so far. */
  lemma UnhyphenateStep(h: string, x: string, i: nat, j: nat)
    requires AllHex(h) && i <= j <= |h|
    requires RemoveChar(x, '-') == h[..i]
    ensures RemoveChar(x + "-" + h[i..j], '-') == h[..j]
  {
    NotInHex(h, '-', i, j);
    RemoveHyphenBefore(x, h[i..j]);
    assert h[..i] + h[i..j] == h[..j];
  }

  /** Removing the hyphens from a formatted UUID leaves its 32 hex digits. */
  lemma UnhyphenateUuid(u: nat)
    requires u < Pow16(32)
    ensures RemoveChar(FormatUuid(u), '-') == HexFixed(u, 32)
  {
    var h := HexFixed(u, 32);
    NotInHex(h, '-', 0, 8);
    RemoveCharAbsent(h[..8], '-');
    assert h[0..8] == h[..8];
    var x1 := h[..8] + "-" + h[8..12];
    UnhyphenateStep(h, h[..8], 8, 12);
    var x2 := x1 + "-" + h[12..16];
    UnhyphenateStep(h, x1, 12, 16);
    var x3 := x2 + "-" + h[16..20];
    UnhyphenateStep(h, x2, 16, 20);
    UnhyphenateStep(h, x3, 20, 32);
    assert h[20..32] == h[20..] && h[..32] == h;
  }

  /** The text of a UUID holds no `u` and neither starts nor ends with a brace. */
  lemma UuidTextShape(u: nat)
    requires u < Pow16(32)
    ensures 'u' !in FormatUuid(u)
    ensures IsHexDigit(FormatUuid(u)[0]) && IsHexDigit(FormatUuid(u)[35])
  {
    var h := HexFixed(u, 32);
    NotInHex(h, 'u', 0, 8);
    NotInHex(h, 'u', 8, 12);
    NotInHex(h, 'u', 12, 16);
    NotInHex(h, 'u', 16, 20);
    NotInHex(h, 'u', 20, 32);
    assert h[20..32] == h[20..] && h[0..8] == h[..8];
    assert FormatUuid(u)[0] == h[0];
    assert FormatUuid(u)[35] == h[31];
  }

  /** A UUID's text is read back as that UUID. */
  lemma ParseFormatUuid(u: nat)
    requires u < Pow16(32)
    ensures ParseUuid(FormatUuid(u)) == Some(u)
  {
    var s := FormatUuid(u);
    UuidTextShape(u);
    RemoveAllAbsent(s, "urn:");
    RemoveAllAbsent(s, "uuid:");
    assert StripBraces(s) == s;
    UnhyphenateUuid(u);
    HexNumberHexFixed(u, 32);
  }

  /** A UUID's own text reads back as that UUID for every non-folder entity class. */
  lemma UuidIdRoundTrip(name: string, u: nat)
    requires u < Pow16(32)
    ensures GetEntityId(UuidKeyed(name), IdText(FormatUuid(u))) == Id(UuidKey(u))
  {
    ParseFormatUuid(u);
  }
}
