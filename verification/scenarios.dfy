/**
 * The concrete cases exercised by src/test.rs, stated over the wire model.
 */
module Scenarios {
  import opened Wrappers
  import opened ByteBuffer
  import opened BigEndian
  import opened Utf8
  import opened Wire
  import opened RoundTripLemmas

  /** The `String` of a Rust string literal: always well-formed UTF-8. */
  function StrOf(s: string): (v: Value)
    ensures v.Str? && ValidUtf8(v.utf8)
  {
    EncodeStringValid(s);
    Str(EncodeString(s))
  }

  /** `"Hello, World!!!".to_string()` is written as its length, 15, then its 15 bytes, and reads back equal. */
  lemma HelloWorld()
    ensures Encode(StrOf("Hello, World!!!")) == IntBytes(Usize, 15) + EncodeString("Hello, World!!!")
    ensures |EncodeString("Hello, World!!!")| == 15
    ensures Decode(StringT, Encode(StrOf("Hello, World!!!"))) == Ok(Decoded(StrOf("Hello, World!!!"), []))
  {
    var s := "Hello, World!!!";
    assert |s| == 15;
    AsciiString(s);
    EncodeStringValid(s);
    RoundTripAlone(StringT, StrOf(s));
  }

  /** `0x33445566u32` is written most significant byte first. */
  lemma U32BigEndian()
    ensures Encode(Num(U32, 0x33445566)) == [0x33, 0x44, 0x55, 0x66]
  {
    assert Pow256(4) == 0x1_0000_0000;
    assert ToBits(U32, 0x33445566) == 0x33445566;
  }

  /** The four bytes of a `u32` are too few for a `u64`: reading one fails with an I/O error. */
  lemma U64FromFourBytes()
    ensures Decode(IntT(U64), Encode(Num(U32, 0x33445566))) == Err(IOError(UnexpectedEof))
  {
    U32BigEndian();
  }

  /** A `u8` is written as itself. */
  lemma ByteEncoding(b: byte)
    ensures HasType(Num(U8, b), IntT(U8))
    ensures Encode(Num(U8, b)) == [b]
  {
    assert Pow256(1) == 256;
    assert ToBits(U8, b) == b;
    assert ToBe(b, 1) == ToBe(b / 256, 0) + [b % 256];
  }

  /** The tuple `(34u8, "test", 34u8, 34u8, 34u8, 34u8)`. */
  function TestTuple(): Value {
    var n := Num(U8, 34);
    Tuple([n, Str(TEST), n, n, n, n])
  }

  function TestTupleType(): Ty {
    var u := IntT(U8);
    TupleT([u, StringT, u, u, u, u])
  }

  /** The bytes of `"test"`. */
  const TEST: seq<byte> := [116, 101, 115, 116]

  /** `"test".to_string()`: four ASCII bytes behind their count. */
  lemma TestString()
    ensures StrOf("test") == Str(TEST)
    ensures HasType(Str(TEST), StringT)
  {
    AsciiString("test");
    EncodeStringValid("test");
  }

  /** Its encoding: the count 4 as a `usize`, then the bytes. */
  lemma TestStringBytes()
    ensures Encode(Str(TEST)) == IntBytes(Usize, 4) + TEST
  {
  }

  /**
   * The components of the test tuple are written back to back with no
   * prefix, so the `String`'s count sits between the first and the third
   * component.
   */
  lemma TupleBytes()
    ensures Encode(TestTuple()) == [34] + Encode(Str(TEST)) + [34, 34, 34, 34]
  {
    var n := Num(U8, 34);
    ByteEncoding(34);
    var fours := [n, n, n, n];
    ByteArrayEncoding(fours, 34);
    var items := TestTuple().items;
    assert items[1..] == [Str(TEST)] + fours && items[2..] == fours;
    assert EncodeAll(items[1..]) == Encode(Str(TEST)) + EncodeAll(fours);
  }

  /** The test tuple is a value of its type. */
  lemma TupleTyped()
    ensures HasType(TestTuple(), TestTupleType())
  {
    var t := TestTuple();
    var ts := TestTupleType().comps;
    ByteEncoding(34);
    TestString();
    forall i | 0 <= i < |ts|
      ensures HasType(t.items[i], ts[i])
    {
      if i != 1 {
        assert t.items[i] == Num(U8, 34) && ts[i] == IntT(U8);
      }
    }
  }

  /** A value alone in the stream reads back with nothing left over. */
  lemma RoundTripAlone(t: Ty, v: Value)
    requires HasType(v, t)
    ensures Decode(t, Encode(v)) == Ok(Decoded(v, []))
  {
    RoundTrip(t, v, []);
    assert Encode(v) + [] == Encode(v);
  }

  /** The tuple test: the bytes read back as an equal tuple, leaving nothing unread. */
  lemma TupleTest()
    ensures Decode(TestTupleType(), Encode(TestTuple())) == Ok(Decoded(TestTuple(), []))
  {
    TupleTyped();
    RoundTripAlone(TestTupleType(), TestTuple());
  }

  /** `[12u8; 16]`. */
  function TestArray(): Value {
    Array(seq(16, _ => Num(U8, 12)))
  }

  /** A run of equal `u8`s is exactly that many copies of the byte. */
  lemma {:induction false} ByteArrayEncoding(items: seq<Value>, b: byte)
    requires forall i :: 0 <= i < |items| ==> items[i] == Num(U8, b)
    ensures EncodeAll(items) == seq(|items|, _ => b)
  {
    if items != [] {
      ByteEncoding(b);
      ByteArrayEncoding(items[1..], b);
    }
  }

  /** The array test: sixteen bytes `12`, read back as an equal array. */
  lemma ArrayTest()
    ensures Encode(TestArray()) == seq(16, _ => 12)
    ensures Decode(ArrayT(IntT(U8), 16), Encode(TestArray())) == Ok(Decoded(TestArray(), []))
  {
    ByteEncoding(12);
    ByteArrayEncoding(TestArray().items, 12);
    RoundTripAlone(ArrayT(IntT(U8), 16), TestArray());
  }
}
