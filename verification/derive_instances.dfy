/**
 * The product codec of module `Derive` instantiated with the codecs of
 * src/lib.rs, and the derive test of src/test.rs.
 */
module DeriveInstances {
  import opened Wrappers
  import opened ByteBuffer
  import opened BigEndian
  import opened Wire
  import opened RoundTripLemmas
  import opened Derive

  /** `bytes.read::<T>(index)`: the value of type `t` decoded from `index` on, if any. */
  function ReadAt(t: Ty, b: seq<byte>, index: nat): Option<Value> {
    if index <= |b| && Decode(t, b[index..]).Ok? then Some(Decode(t, b[index..]).value.value) else None
  }

  /** Reading at the start of a value's bytes gives the value, whatever surrounds them. */
  lemma ReadAtEncoded(t: Ty, v: Value, b: seq<byte>, index: nat)
    requires HasType(v, t)
    requires index + |Encode(v)| <= |b| && b[index..index + |Encode(v)|] == Encode(v)
    ensures ReadAt(t, b, index) == Some(v)
  {
    var e := Encode(v);
    assert b[index..] == e + b[index + |e|..];
    RoundTrip(t, v, b[index + |e|..]);
  }

  /**
   * The field codec of a type of src/lib.rs: it accepts exactly the values of
   * that type, and it is sound, so the generated struct code can rely on it.
   */
  function TyCodec(t: Ty): (c: FieldCodec<Value>)
    ensures forall v :: c.accepts(v) <==> HasType(v, t)
    ensures Sound(c)
  {
    var c := FieldCodec(v => Encode(v), (b, i) => ReadAt(t, b, i), v => |Encode(v)|, v => HasType(v, t));
    CodecOfTypeSound(t, c);
    c
  }

  /**
   * A codec that writes `Encode`, reads with `ReadAt` and measures the encoding
   * is sound for the values of `t`.
   */
  lemma CodecOfTypeSound(t: Ty, c: FieldCodec<Value>)
    requires forall v :: c.serialize(v) == Encode(v) && c.size(v) == |Encode(v)| && (c.accepts(v) <==> HasType(v, t))
    requires forall b: seq<byte>, i: nat :: c.read(b, i) == ReadAt(t, b, i)
    ensures Sound(c)
  {
    forall v, b: seq<byte>, i: nat |
      c.accepts(v) && i + |c.serialize(v)| <= |b| && b[i..i + |c.serialize(v)|] == c.serialize(v)
      ensures c.read(b, i) == Some(v)
    {
      ReadAtEncoded(t, v, b, i);
    }
  }

  /**
   * The fields of the test struct of src/test.rs: two `u64`s. The macro
   * expands only the named form `Test1 {x: u64, y: u64}`; the tuple struct
   * `Test(u64, u64)` that the test uses has the same fields in the same order.
   */
  function TestFields(): seq<FieldCodec<Value>> {
    [TyCodec(IntT(U64)), TyCodec(IntT(U64))]
  }

  function TestValue(): seq<Value> {
    [Num(U64, 345), Num(U64, 564746324436543543)]
  }

  /** Both fields are `u64` values, and `u64` has a sound codec. */
  lemma TestFits()
    ensures Fits(TestFields(), TestValue())
  {
    assert Pow256(8) == 0x1_0000_0000_0000_0000;
    assert HasType(TestValue()[0], IntT(U64)) && HasType(TestValue()[1], IntT(U64));
  }

  /** `Test(345, 564746324436543543)` takes 16 bytes, as its `size()` says. */
  lemma DeriveTestSize()
    ensures ProductSize(TestFields(), TestValue()) == |ProductEncode(TestFields(), TestValue())| == 16
  {
    TestFits();
    ProductSizeIsLength(TestFields(), TestValue());
  }

  /** Deserializing the bytes of `Test(345, 564746324436543543)` at 0 gives it back. */
  lemma DeriveTest()
    ensures ProductDecode(TestFields(), ProductEncode(TestFields(), TestValue()), 0) == Some(TestValue())
  {
    var cs, vs := TestFields(), TestValue();
    TestFits();
    ProductRoundTrip(cs, vs, [], []);
    assert [] + ProductEncode(cs, vs) + [] == ProductEncode(cs, vs);
  }

  /** The derive test as the generated code runs it. */
  method DeriveTestRun() returns (found: Option<seq<Value>>)
    ensures found == Some(TestValue())
  {
    var bytes := SerializeStruct(TestFields(), TestValue());
    found := DeserializeStruct(TestFields(), bytes, 0);
    DeriveTest();
  }
}
