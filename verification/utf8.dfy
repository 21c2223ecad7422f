/**
 UTF-8 as Python's strict codec does it: `str.encode("utf-8")` and
 `bytes.decode("utf-8")`, the latter accepting exactly the well-formed byte
 sequences of table 3-7 of the Unicode Standard (no overlong forms, no
 surrogates, nothing above U+10FFFF).
 */
module Utf8 {
  import opened Common

  /** A continuation byte, `10xxxxxx`. */
  predicate IsCont(b: byte)
  {
    0x80 <= b <= 0xBF
  }

  /** The bytes of one character: one to four, by the size of its scalar value. */
  function EncodeChar(c: char): (bs: seq<byte>)
    ensures 1 <= |bs| <= 4
  {
    var v := c as int;
    if v < 0x80 then [v]
    else if v < 0x800 then [0xC0 + v / 64, 0x80 + v % 64]
    else if v < 0x1_0000 then [0xE0 + v / 4096, 0x80 + (v / 64) % 64, 0x80 + v % 64]
    else [0xF0 + v / 262144, 0x80 + (v / 4096) % 64, 0x80 + (v / 64) % 64, 0x80 + v % 64]
  }

  /** `s.encode("utf-8")`. */
  function Encode(s: string): (bs: seq<byte>)
    ensures |s| <= |bs| <= 4 * |s|
  {
    if |s| == 0 then [] else EncodeChar(s[0]) + Encode(s[1..])
  }

  /**
   The length of the well-formed sequence that `bs` starts with, or 0 when
   its first bytes form none (a stray continuation byte, C0, C1, F5..FF, an
   overlong or surrogate form, a value above U+10FFFF, or a truncated tail).
   */
  function LeadLength(bs: seq<byte>): (n: nat)
    requires |bs| >= 1
    ensures n <= 4 && n <= |bs|
  {
    var b0 := bs[0];
    if b0 < 0x80 then 1
    else if 0xC2 <= b0 <= 0xDF then
      if |bs| >= 2 && IsCont(bs[1]) then 2 else 0
    else if 0xE0 <= b0 <= 0xEF then
      var lo := if b0 == 0xE0 then 0xA0 else 0x80;
      var hi := if b0 == 0xED then 0x9F else 0xBF;
      if |bs| >= 3 && lo <= bs[1] <= hi && IsCont(bs[2]) then 3 else 0
    else if 0xF0 <= b0 <= 0xF4 then
      var lo := if b0 == 0xF0 then 0x90 else 0x80;
      var hi := if b0 == 0xF4 then 0x8F else 0xBF;
      if |bs| >= 4 && lo <= bs[1] <= hi && IsCont(bs[2]) && IsCont(bs[3]) then 4 else 0
    else 0
  }

  /** True of a Unicode scalar value: a code point that is not a surrogate. */
  predicate IsScalar(v: int)
  {
    (0 <= v < 0xD800) || (0xE000 <= v < 0x11_0000)
  }

  /** The scalar value spelled by a well-formed sequence of `n` bytes. */
  function LeadValue(bs: seq<byte>, n: nat): (v: int)
    requires |bs| >= 1 && n == LeadLength(bs) && n > 0
    ensures IsScalar(v)
  {
    var b0: int := bs[0];
    if n == 1 then b0
    else
      var b1: int := bs[1];
      if n == 2 then (b0 - 0xC0) * 64 + (b1 - 0x80)
      else
        var b2: int := bs[2];
        if n == 3 then (b0 - 0xE0) * 4096 + (b1 - 0x80) * 64 + (b2 - 0x80)
        else
          var b3: int := bs[3];
          (b0 - 0xF0) * 262144 + (b1 - 0x80) * 4096 + (b2 - 0x80) * 64 + (b3 - 0x80)
  }

  /** `bs.decode("utf-8")`; `None` where Python raises `UnicodeDecodeError`. */
  function Decode(bs: seq<byte>): (r: Option<string>)
    ensures r.Some? ==> |r.value| <= |bs|
  {
    if |bs| == 0 then Some("")
    else
      var n := LeadLength(bs);
      if n == 0 then None
      else
        match Decode(bs[n..])
        case None => None
        case Some(rest) => Some([LeadValue(bs, n) as char] + rest)
  }

  lemma Lead2(v: int, rest: seq<byte>)
    requires 0x80 <= v < 0x800
    ensures var e := [0xC0 + v / 64, 0x80 + v % 64] + rest;
            LeadLength(e) == 2 && LeadValue(e, 2) == v
  {
    var a, b := v / 64, v % 64;
    assert v == a * 64 + b;
    assert 2 <= a < 32;
  }

  lemma Lead3(v: int, rest: seq<byte>)
    requires 0x800 <= v < 0x1_0000 && IsScalar(v)
    ensures var e := [0xE0 + v / 4096, 0x80 + (v / 64) % 64, 0x80 + v % 64] + rest;
            LeadLength(e) == 3 && LeadValue(e, 3) == v
  {
    var q := v / 64;
    var a, b, c := v / 4096, q % 64, v % 64;
    assert v == q * 64 + c;
    assert a == q / 64;
    assert q == a * 64 + b;
    assert v == a * 4096 + b * 64 + c;
    assert 0 <= a < 16;
    assert a == 0 ==> b >= 32;
    assert a == 0xD ==> b < 32;
  }

  lemma Lead4(v: int, rest: seq<byte>)
    requires 0x1_0000 <= v < 0x11_0000
    ensures var e := [0xF0 + v / 262144, 0x80 + (v / 4096) % 64, 0x80 + (v / 64) % 64, 0x80 + v % 64] + rest;
            LeadLength(e) == 4 && LeadValue(e, 4) == v
  {
    var q := v / 64;
    var p := v / 4096;
    var a, b, c, d := v / 262144, p % 64, q % 64, v % 64;
    assert v == q * 64 + d;
    assert p == q / 64;
    assert q == p * 64 + c;
    assert a == p / 64;
    assert p == a * 64 + b;
    assert v == a * 262144 + b * 4096 + c * 64 + d;
    assert 0 <= a <= 4;
    assert a == 0 ==> b >= 16;
    assert a == 4 ==> b < 16;
  }

  /** The bytes of one character are read back as that character, whatever follows. */
  lemma DecodeCharPrefix(c: char, rest: seq<byte>)
    ensures var e := EncodeChar(c) + rest;
            LeadLength(e) == |EncodeChar(c)| && LeadValue(e, |EncodeChar(c)|) == c as int
  {
    var v := c as int;
    assert IsScalar(v);
    if v < 0x80 {
    } else if v < 0x800 {
      Lead2(v, rest);
    } else if v < 0x1_0000 {
      Lead3(v, rest);
    } else {
      Lead4(v, rest);
    }
  }

  /** Encoding then decoding is the identity: every text survives the round trip. */
  lemma {:induction false} DecodeEncode(s: string)
    ensures Decode(Encode(s)) == Some(s)
  {
    if |s| > 0 {
      var e := Encode(s);
      var head := EncodeChar(s[0]);
      DecodeCharPrefix(s[0], Encode(s[1..]));
      assert e[|head|..] == Encode(s[1..]);
      DecodeEncode(s[1..]);
      assert [s[0]] + s[1..] == s;
    }
  }

  /** Splitting a two-byte value into its six-bit groups recovers the digits. */
  lemma Base64Digits2(a: int, b: int)
    requires 0 <= b < 64
    ensures (a * 64 + b) / 64 == a && (a * 64 + b) % 64 == b
  {
  }

  lemma Base64Digits3(a: int, b: int, c: int)
    requires 0 <= b < 64 && 0 <= c < 64
    ensures var v := a * 4096 + b * 64 + c;
            v / 4096 == a && (v / 64) % 64 == b && v % 64 == c
  {
    var v := a * 4096 + b * 64 + c;
    assert v == (a * 64 + b) * 64 + c;
    Base64Digits2(a * 64 + b, c);
    Base64Digits2(a, b);
    assert v / 4096 == (v / 64) / 64;
  }

  lemma Base64Digits4(a: int, b: int, c: int, d: int)
    requires 0 <= b < 64 && 0 <= c < 64 && 0 <= d < 64
    ensures var v := a * 262144 + b * 4096 + c * 64 + d;
            v / 262144 == a && (v / 4096) % 64 == b && (v / 64) % 64 == c && v % 64 == d
  {
    var v := a * 262144 + b * 4096 + c * 64 + d;
    var w := a * 4096 + b * 64 + c;
    assert v == w * 64 + d;
    Base64Digits2(w, d);
    Base64Digits3(a, b, c);
    assert v / 4096 == (v / 64) / 64;
    assert v / 262144 == ((v / 64) / 64) / 64;
  }

  /** A decoded sequence's first character encodes back to exactly its lead bytes. */
  lemma EncodeLead(bs: seq<byte>)
    requires |bs| >= 1 && LeadLength(bs) > 0
    ensures EncodeChar(LeadValue(bs, LeadLength(bs)) as char) == bs[..LeadLength(bs)]
  {
    var n := LeadLength(bs);
    var b0: int := bs[0];
    if n == 2 {
      Base64Digits2(b0 - 0xC0, bs[1] - 0x80);
    } else if n == 3 {
      Base64Digits3(b0 - 0xE0, bs[1] - 0x80, bs[2] - 0x80);
    } else if n == 4 {
      Base64Digits4(b0 - 0xF0, bs[1] - 0x80, bs[2] - 0x80, bs[3] - 0x80);
    }
  }

  /** Whatever decodes successfully encodes back to the same bytes: decoding is injective. */
  lemma {:induction false} EncodeDecode(bs: seq<byte>)
    requires Decode(bs).Some?
    ensures Encode(Decode(bs).value) == bs
  {
    if |bs| > 0 {
      var n := LeadLength(bs);
      var c := LeadValue(bs, n) as char;
      var rest := Decode(bs[n..]).value;
      assert Decode(bs).value == [c] + rest;
      EncodeDecode(bs[n..]);
      EncodeLead(bs);
      EncodeCons(c, rest, bs, n);
    }
  }

  /** Encoding a character in front of a text puts its bytes in front. */
  lemma EncodeCons(c: char, rest: string, bs: seq<byte>, n: nat)
    requires n <= |bs| && EncodeChar(c) == bs[..n] && Encode(rest) == bs[n..]
    ensures Encode([c] + rest) == bs
  {
    var s := [c] + rest;
    assert s[0] == c && s[1..] == rest;
    assert bs[..n] + bs[n..] == bs;
  }
}
