/**
 * UTF-8 as Rust strings use it: the encoding of a string of Unicode scalar
 * values, and the byte-level well-formedness test behind `OsStr::to_str`
 * (the well-formed byte sequences of table 3-7 of the Unicode Standard).
 */
module Utf8 {
  import opened Bytes

  /** Is `b` a continuation byte (`10xxxxxx`) within `lo..hi`? */
  predicate InRange(b: byte, lo: int, hi: int)
  {
    lo <= b as int <= hi
  }

  /** The length a lead byte announces, or 0 when it cannot start a well-formed sequence. */
  function LeadLength(b: byte): (n: nat)
    ensures n <= 4
  {
    if b < 0x80 then 1
    else if 0xC2 <= b <= 0xDF then 2
    else if 0xE0 <= b <= 0xEF then 3
    else if 0xF0 <= b <= 0xF4 then 4
    else 0
  }

  /** One well-formed code-unit sequence, with its lead byte chosen by `LeadLength`. */
  predicate WellFormed(s: seq<byte>)
  {
    && |s| > 0
    && |s| == LeadLength(s[0])
    && (|s| == 2 ==> InRange(s[1], 0x80, 0xBF))
    && (|s| == 3 ==>
          && InRange(s[1], if s[0] == 0xE0 then 0xA0 else 0x80, if s[0] == 0xED then 0x9F else 0xBF)
          && InRange(s[2], 0x80, 0xBF))
    && (|s| == 4 ==>
          && InRange(s[1], if s[0] == 0xF0 then 0x90 else 0x80, if s[0] == 0xF4 then 0x8F else 0xBF)
          && InRange(s[2], 0x80, 0xBF)
          && InRange(s[3], 0x80, 0xBF))
  }

  /** `s` is a concatenation of well-formed sequences. */
  predicate Valid(s: seq<byte>)
    decreases |s|
  {
    if s == [] then true
    else
      var n := LeadLength(s[0]);
      n > 0 && n <= |s| && WellFormed(s[..n]) && Valid(s[n..])
  }

  /** The UTF-8 encoding of one scalar value. */
  function EncodeChar(c: char): (r: seq<byte>)
    ensures 1 <= |r| <= 4
    ensures |r| == 1 <==> c as int < 0x80
    ensures |r| == 1 ==> r[0] as int == c as int
    ensures WellFormed(r)
  {
    var v := c as int;
    if v < 0x80 then [v as byte]
    else if v < 0x800 then EncodeTwo(v)
    else if v < 0x10000 then EncodeThree(v)
    else EncodeFour(v)
  }

  function EncodeTwo(v: int): (r: seq<byte>)
    requires 0x80 <= v < 0x800
    ensures |r| == 2 && WellFormed(r)
  {
    [(0xC0 + v / 64) as byte, (0x80 + v % 64) as byte]
  }

  /** Surrogates (`0xD800..0xDFFF`) are not scalar values, so `0xED` is followed by at most `0x9F`. */
  function EncodeThree(v: int): (r: seq<byte>)
    requires 0x800 <= v < 0x10000 && !(0xD800 <= v < 0xE000)
    ensures |r| == 3 && WellFormed(r)
  {
    [(0xE0 + v / 4096) as byte, (0x80 + (v / 64) % 64) as byte, (0x80 + v % 64) as byte]
  }

  function EncodeFour(v: int): (r: seq<byte>)
    requires 0x10000 <= v < 0x110000
    ensures |r| == 4 && WellFormed(r)
  {
    [(0xF0 + v / 262144) as byte, (0x80 + (v / 4096) % 64) as byte, (0x80 + (v / 64) % 64) as byte, (0x80 + v % 64) as byte]
  }

  /** `str::as_bytes`: the UTF-8 encoding of a string. */
  function Encode(s: string): (r: seq<byte>)
    ensures |r| >= |s|
  {
    if s == [] then [] else EncodeChar(s[0]) + Encode(s[1..])
  }

  /** Every encoded string is well-formed: `to_str` accepts what `as_bytes` produced. */
  lemma {:induction false} EncodeValid(s: string)
    ensures Valid(Encode(s))
  {
    if s != [] {
      var e := EncodeChar(s[0]);
      EncodeValid(s[1..]);
      var r := Encode(s);
      assert r == e + Encode(s[1..]);
      assert r[0] == e[0];
      assert r[..|e|] == e;
      assert r[|e|..] == Encode(s[1..]);
    }
  }

  /** A string whose encoding is all ASCII bytes is an ASCII string, and its encoding is `Ascii`. */
  lemma {:induction false} AsciiEncoding(s: string)
    requires forall i :: 0 <= i < |Encode(s)| ==> Encode(s)[i] < 0x80
    ensures forall i :: 0 <= i < |s| ==> s[i] as int < 128
    ensures Encode(s) == Ascii(s)
  {
    if s != [] {
      var e := EncodeChar(s[0]);
      assert Encode(s) == e + Encode(s[1..]);
      assert Encode(s)[0] == e[0];
      forall i | 0 <= i < |Encode(s[1..])| ensures Encode(s[1..])[i] < 0x80 {
        assert Encode(s[1..])[i] == Encode(s)[i + 1];
      }
      AsciiEncoding(s[1..]);
    }
  }

  /** An ASCII string's encoding is its bytes. */
  lemma {:induction false} EncodeAscii(s: string)
    requires forall i :: 0 <= i < |s| ==> s[i] as int < 128
    ensures Encode(s) == Ascii(s)
  {
    if s != [] {
      EncodeAscii(s[1..]);
      assert Ascii(s) == Ascii(s[..1]) + Ascii(s[1..]);
    }
  }
}
