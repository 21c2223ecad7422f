/**
 Hexadecimal text: `binascii.hexlify`/`unhexlify` over text made of ASCII
 hex digits, and the fixed-width hex spelling of a number used by UUIDs.
 */
module Hex {
  import opened Common

  /** One of `0-9`, `a-f`, `A-F`. */
  predicate IsHexDigit(c: char)
  {
    ('0' <= c <= '9') || ('a' <= c <= 'f') || ('A' <= c <= 'F')
  }

  predicate AllHex(s: string)
  {
    forall i :: 0 <= i < |s| ==> IsHexDigit(s[i])
  }

  /** The value of one hex digit, either case. */
  function HexValue(c: char): (v: nat)
    requires IsHexDigit(c)
    ensures v < 16
  {
    if '0' <= c <= '9' then (c as int) - ('0' as int)
    else if 'a' <= c <= 'f' then (c as int) - ('a' as int) + 10
    else (c as int) - ('A' as int) + 10
  }

  /** Which letters a hex spelling uses for the values ten to fifteen. */
  datatype LetterCase = Lower | Upper

  function Digit(v: nat, letters: LetterCase): (c: char)
    requires v < 16
    ensures IsHexDigit(c) && HexValue(c) == v
  {
    if v < 10 then (('0' as int) + v) as char
    else if letters == Lower then (('a' as int) + v - 10) as char
    else (('A' as int) + v - 10) as char
  }

  /** `binascii.hexlify`: two digits per byte, high nibble first. */
  function Hexlify(bs: seq<byte>, letters: LetterCase): (s: string)
    ensures |s| == 2 * |bs|
    ensures AllHex(s)
  {
    if |bs| == 0 then ""
    else [Digit(bs[0] / 16, letters), Digit(bs[0] % 16, letters)] + Hexlify(bs[1..], letters)
  }

  /**
   `binascii.unhexlify`: fails (Python raises `binascii.Error`, a `ValueError`)
   on an odd length or on any character that is not a hex digit.
   */
  function Unhexlify(s: string): (r: Option<seq<byte>>)
    ensures r.Some? <==> |s| % 2 == 0 && AllHex(s)
    ensures r.Some? ==> |r.value| * 2 == |s|
  {
    if |s| == 0 then Some([])
    else if |s| == 1 || !IsHexDigit(s[0]) || !IsHexDigit(s[1]) then None
    else
      match Unhexlify(s[2..])
      case None => None
      case Some(rest) =>
        var b: byte := HexValue(s[0]) * 16 + HexValue(s[1]);
        Some([b] + rest)
  }

  /** Hex text in either letter case decodes back to the bytes it spells. */
  lemma {:induction false} UnhexlifyHexlify(bs: seq<byte>, letters: LetterCase)
    ensures Unhexlify(Hexlify(bs, letters)) == Some(bs)
  {
    if |bs| > 0 {
      var s := Hexlify(bs, letters);
      var hi, lo := bs[0] / 16, bs[0] % 16;
      assert s[0] == Digit(hi, letters) && s[1] == Digit(lo, letters);
      assert HexValue(s[0]) * 16 + HexValue(s[1]) == bs[0];
      assert s[2..] == Hexlify(bs[1..], letters);
      UnhexlifyHexlify(bs[1..], letters);
      assert [bs[0]] + bs[1..] == bs;
    }
  }

  function Pow16(e: nat): (p: nat)
    ensures p >= 1
  {
    if e == 0 then 1 else 16 * Pow16(e - 1)
  }

  /** The value of a run of hex digits, most significant first. */
  function HexNumber(s: string): (n: nat)
    requires AllHex(s)
    ensures n < Pow16(|s|)
  {
    if |s| == 0 then 0
    else HexNumber(s[..|s| - 1]) * 16 + HexValue(s[|s| - 1])
  }

  /** The `width`-digit lower-case hex spelling of `n`, zero padded. */
  function HexFixed(n: nat, width: nat): (s: string)
    requires n < Pow16(width)
    ensures |s| == width && AllHex(s)
  {
    if width == 0 then ""
    else HexFixed(n / 16, width - 1) + [Digit(n % 16, Lower)]
  }

  /** Reading a fixed-width spelling back gives the number. */
  lemma {:induction false} HexNumberHexFixed(n: nat, width: nat)
    requires n < Pow16(width)
    ensures HexNumber(HexFixed(n, width)) == n
  {
    if width > 0 {
      var s := HexFixed(n, width);
      assert s[..|s| - 1] == HexFixed(n / 16, width - 1);
      HexNumberHexFixed(n / 16, width - 1);
    }
  }
}
