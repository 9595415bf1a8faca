/**
 * UTF-8 well-formedness, as `String::from_utf8` checks it (the table of
 * well-formed byte sequences in section 3.9 of the Unicode Standard,
 * Table 3-7): no overlong forms, no surrogates, nothing above U+10FFFF.
 */
module Utf8 {
  import opened ByteBuffer

  predicate IsCont(b: byte) {
    0x80 <= b <= 0xBF
  }

  /** The length of the well-formed sequence that starts `s`, or 0 when there is none. */
  function CharLen(s: seq<byte>): (n: nat)
    requires s != []
    ensures n <= 4 && n <= |s|
  {
    var b0 := s[0];
    if b0 <= 0x7F then 1
    else if 0xC2 <= b0 <= 0xDF then
      if |s| >= 2 && IsCont(s[1]) then 2 else 0
    else if 0xE0 <= b0 <= 0xEF then
      var lo := if b0 == 0xE0 then 0xA0 else 0x80;
      var hi := if b0 == 0xED then 0x9F else 0xBF;
      if |s| >= 3 && lo <= s[1] <= hi && IsCont(s[2]) then 3 else 0
    else if 0xF0 <= b0 <= 0xF4 then
      var lo := if b0 == 0xF0 then 0x90 else 0x80;
      var hi := if b0 == 0xF4 then 0x8F else 0xBF;
      if |s| >= 4 && lo <= s[1] <= hi && IsCont(s[2]) && IsCont(s[3]) then 4 else 0
    else 0
  }

  /** `s` splits into well-formed sequences, one after the other. */
  predicate ValidUtf8(s: seq<byte>)
    decreases |s|
  {
    s == [] || (CharLen(s) > 0 && ValidUtf8(s[CharLen(s)..]))
  }

  /** The first sequence is recognised from its own bytes, whatever follows. */
  lemma CharLenPrefix(a: seq<byte>, b: seq<byte>)
    requires a != [] && CharLen(a) > 0
    ensures CharLen(a + b) == CharLen(a)
  {
    var n := CharLen(a);
    assert (a + b)[..n] == a[..n];
  }

  /** Well-formed text followed by well-formed text is well-formed. */
  lemma {:induction false} ValidConcat(a: seq<byte>, b: seq<byte>)
    requires ValidUtf8(a) && ValidUtf8(b)
    ensures ValidUtf8(a + b)
    decreases |a|
  {
    if a != [] {
      var n := CharLen(a);
      CharLenPrefix(a, b);
      assert (a + b)[n..] == a[n..] + b;
      ValidConcat(a[n..], b);
    } else {
      assert a + b == b;
    }
  }

  /** Bytes below 0x80 (ASCII) are well-formed on their own. */
  lemma {:induction false} AsciiValid(s: seq<byte>)
    requires forall i :: 0 <= i < |s| ==> s[i] < 0x80
    ensures ValidUtf8(s)
    decreases |s|
  {
    if s != [] {
      AsciiValid(s[1..]);
    }
  }

  /** The UTF-8 encoding of one Unicode scalar value. */
  function EncodeChar(c: char): (r: seq<byte>)
    ensures 1 <= |r| <= 4
  {
    var x := c as int;
    if x < 0x80 then [x]
    else if x < 0x800 then [0xC0 + x / 64, 0x80 + x % 64]
    else if x < 0x10000 then [0xE0 + x / 4096, 0x80 + x / 64 % 64, 0x80 + x % 64]
    else [0xF0 + x / 0x40000, 0x80 + x / 4096 % 64, 0x80 + x / 64 % 64, 0x80 + x % 64]
  }

  /** Every scalar value encodes to exactly one well-formed sequence. */
  lemma EncodeCharWellFormed(c: char)
    ensures CharLen(EncodeChar(c)) == |EncodeChar(c)|
  {
    var x := c as int;
    if 0x800 <= x < 0x10000 {
      assert x / 4096 < 16;
      if x / 4096 == 0 {
        assert x / 64 % 64 >= 0x20;
      }
      if x / 4096 == 0xD {
        assert x < 0xD800;
        assert x / 64 % 64 < 0x20;
      }
    } else if x >= 0x10000 {
      assert x / 0x40000 <= 4;
      if x / 0x40000 == 0 {
        assert x / 4096 % 64 >= 0x10;
      }
      if x / 0x40000 == 4 {
        assert x / 4096 % 64 < 0x10;
      }
    }
  }

  /** `str::as_bytes` of the string of scalar values `s`. */
  function EncodeString(s: string): seq<byte> {
    if s == [] then [] else EncodeChar(s[0]) + EncodeString(s[1..])
  }

  /** Every Rust string's bytes are well-formed UTF-8, so `String::from_utf8` accepts them. */
  lemma {:induction false} EncodeStringValid(s: string)
    ensures ValidUtf8(EncodeString(s))
  {
    if s != [] {
      var e := EncodeChar(s[0]);
      EncodeCharWellFormed(s[0]);
      assert e[|e|..] == [];
      EncodeStringValid(s[1..]);
      ValidConcat(e, EncodeString(s[1..]));
    }
  }

  /** An ASCII string's bytes are its character codes, one byte per character. */
  lemma {:induction false} AsciiString(s: string)
    requires forall i :: 0 <= i < |s| ==> s[i] as int < 0x80
    ensures |EncodeString(s)| == |s|
    ensures forall i :: 0 <= i < |s| ==> EncodeString(s)[i] == s[i] as int
  {
    if s != [] {
      AsciiString(s[1..]);
      assert EncodeString(s) == [s[0] as int] + EncodeString(s[1..]);
    }
  }
}
