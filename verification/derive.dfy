/**
 * What `#[derive(Serialize)]` generates for a struct
 * (serialize_derive/src/lib.rs:29-51): `serialize` appends every field's
 * bytes in declaration order to a new `Bytes`; `deserialize` reads the fields
 * one after another from an index that advances by each field's `size()`,
 * giving up at the first field that cannot be read; `size` adds the field
 * sizes. The struct is modelled as the list of its field values, each field
 * with the codec of its type; `V` stands for the values fields can hold.
 */
module Derive {
  import opened Wrappers
  import opened ByteBuffer

  /**
   * What the generated code uses of a field's type `V`: its `serialize`, its
   * `read` at an index of a byte string, its `size`, and which values are of
   * that type at all.
   */
  datatype FieldCodec<!V> = FieldCodec(
    serialize: V -> seq<byte>,
    read: (seq<byte>, nat) -> Option<V>,
    size: V -> nat,
    accepts: V -> bool)

  /**
   * A field codec that works: the size of a value is the length of its bytes,
   * and wherever those bytes stand in a byte string, reading at their start
   * gives the value back.
   */
  ghost predicate Sound<V(!new)>(c: FieldCodec<V>) {
    && (forall v :: c.accepts(v) ==> c.size(v) == |c.serialize(v)|)
    && (forall v, b: seq<byte>, i: nat ::
          c.accepts(v) && i + |c.serialize(v)| <= |b| && b[i..i + |c.serialize(v)|] == c.serialize(v)
          ==> c.read(b, i) == Some(v))
  }

  /** Every field has a sound codec and a value of its type. */
  ghost predicate Fits<V(!new)>(cs: seq<FieldCodec<V>>, vs: seq<V>) {
    |cs| == |vs| && forall i :: 0 <= i < |cs| ==> Sound(cs[i]) && cs[i].accepts(vs[i])
  }

  /** Generated `serialize`: the fields' bytes, in declaration order. */
  function ProductEncode<V>(cs: seq<FieldCodec<V>>, vs: seq<V>): seq<byte>
    requires |cs| == |vs|
  {
    if cs == [] then [] else cs[0].serialize(vs[0]) + ProductEncode(cs[1..], vs[1..])
  }

  /** Generated `size`: the sum of the fields' sizes. */
  function ProductSize<V>(cs: seq<FieldCodec<V>>, vs: seq<V>): nat
    requires |cs| == |vs|
  {
    if cs == [] then 0 else cs[0].size(vs[0]) + ProductSize(cs[1..], vs[1..])
  }

  /**
   * Generated `deserialize` at `index`: the first field is read there, the
   * rest after it; `None` as soon as one field cannot be read.
   */
  function ProductDecode<V>(cs: seq<FieldCodec<V>>, b: seq<byte>, index: nat): (r: Option<seq<V>>)
    ensures r.Some? ==> |r.value| == |cs|
  {
    if cs == [] then Some([])
    else
      match cs[0].read(b, index)
      case None => None
      case Some(f) =>
        match ProductDecode(cs[1..], b, index + cs[0].size(f))
        case None => None
        case Some(fs) => Some([f] + fs)
  }

  /** The fields decoded so far, in front of what the remaining fields give. */
  function Prepend<V>(fields: seq<V>, o: Option<seq<V>>): (r: Option<seq<V>>)
    ensures r.Some? <==> o.Some?
    ensures r.Some? ==> |r.value| == |fields| + |o.value|
  {
    if o.None? then None else Some(fields + o.value)
  }

  // ----- Properties of the product codec ------------------------------------

  lemma PrefixSize<V>(cs: seq<FieldCodec<V>>, vs: seq<V>, j: nat)
    requires j < |cs| && j < |vs|
    ensures ProductSize(cs[..j + 1], vs[..j + 1]) == cs[0].size(vs[0]) + ProductSize(cs[1..][..j], vs[1..][..j])
  {
    assert cs[..j + 1][1..] == cs[1..][..j];
    assert vs[..j + 1][1..] == vs[1..][..j];
  }

  /**
   * Field `j` reads as `vs[j]` at `index` plus the sizes of the fields before
   * it, for every field.
   */
  ghost predicate ReadsAtOffsets<V>(cs: seq<FieldCodec<V>>, b: seq<byte>, index: nat, vs: seq<V>) {
    |vs| == |cs| && forall j {:trigger ProductSize(cs[..j], vs[..j])} :: 0 <= j < |cs| ==> cs[j].read(b, index + ProductSize(cs[..j], vs[..j])) == Some(vs[j])
  }

  /** Where the generated `deserialize` reads field `j`: after the sizes of the fields before it. */
  lemma {:induction false} ReadAtOffset<V>(cs: seq<FieldCodec<V>>, b: seq<byte>, index: nat, vs: seq<V>, j: nat)
    requires ProductDecode(cs, b, index) == Some(vs)
    requires j < |cs|
    ensures |vs| == |cs|
    ensures cs[j].read(b, index + ProductSize(cs[..j], vs[..j])) == Some(vs[j])
    decreases j
  {
    var f := cs[0].read(b, index).value;
    var next := index + cs[0].size(f);
    var fs := ProductDecode(cs[1..], b, next).value;
    assert vs == [f] + fs;
    if j == 0 {
      assert ProductSize(cs[..0], vs[..0]) == 0;
    } else {
      assert vs[0] == f && vs[1..] == fs;
      assert cs[1..][j - 1] == cs[j] && fs[j - 1] == vs[j];
      PrefixSize(cs, vs, j - 1);
      ReadAtOffset(cs[1..], b, next, fs, j - 1);
    }
  }

  lemma DecodeReadsAtOffsets<V>(cs: seq<FieldCodec<V>>, b: seq<byte>, index: nat, vs: seq<V>)
    requires ProductDecode(cs, b, index) == Some(vs)
    ensures |vs| == |cs|
    ensures forall j {:trigger ProductSize(cs[..j], vs[..j])} :: 0 <= j < |cs| ==> cs[j].read(b, index + ProductSize(cs[..j], vs[..j])) == Some(vs[j])
  {
    forall j | 0 <= j < |cs|
      ensures cs[j].read(b, index + ProductSize(cs[..j], vs[..j])) == Some(vs[j])
    {
      ReadAtOffset(cs, b, index, vs, j);
    }
  }

  /** One more field adds its own size to the total. */
  lemma {:induction false} ProductSizeAppend<V>(cs: seq<FieldCodec<V>>, vs: seq<V>, c: FieldCodec<V>, v: V)
    requires |cs| == |vs|
    ensures ProductSize(cs + [c], vs + [v]) == ProductSize(cs, vs) + c.size(v)
  {
    if cs == [] {
      assert cs + [c] == [c] && vs + [v] == [v];
    } else {
      assert (cs + [c])[1..] == cs[1..] + [c] && (vs + [v])[1..] == vs[1..] + [v];
      ProductSizeAppend(cs[1..], vs[1..], c, v);
    }
  }

  /** The first field, then the others after it. */
  lemma DecodeCons<V>(cs: seq<FieldCodec<V>>, b: seq<byte>, index: nat, f: V, fs: seq<V>)
    requires cs != [] && cs[0].read(b, index) == Some(f)
    requires ProductDecode(cs[1..], b, index + cs[0].size(f)) == Some(fs)
    ensures ProductDecode(cs, b, index) == Some([f] + fs)
  {
  }

  /** Fields readable at their offsets decode from field `k` on, at field `k`'s offset. */
  lemma {:induction false} SuffixDecodes<V>(cs: seq<FieldCodec<V>>, b: seq<byte>, index: nat, vs: seq<V>, k: nat)
    requires |vs| == |cs| && k <= |cs|
    requires forall j {:trigger ProductSize(cs[..j], vs[..j])} :: 0 <= j < |cs| ==> cs[j].read(b, index + ProductSize(cs[..j], vs[..j])) == Some(vs[j])
    ensures ProductDecode(cs[k..], b, index + ProductSize(cs[..k], vs[..k])) == Some(vs[k..])
    decreases |cs| - k
  {
    if k == |cs| {
      assert cs[k..] == [] && vs[k..] == [];
    } else {
      SuffixDecodes(cs, b, index, vs, k + 1);
      SuffixStep(cs, b, index, vs, k);
    }
  }

  /** Field `k` read at its offset, in front of the fields after it. */
  lemma SuffixStep<V>(cs: seq<FieldCodec<V>>, b: seq<byte>, index: nat, vs: seq<V>, k: nat)
    requires |vs| == |cs| && k < |cs|
    requires cs[k].read(b, index + ProductSize(cs[..k], vs[..k])) == Some(vs[k])
    requires ProductDecode(cs[k + 1..], b, index + ProductSize(cs[..k + 1], vs[..k + 1])) == Some(vs[k + 1..])
    ensures ProductDecode(cs[k..], b, index + ProductSize(cs[..k], vs[..k])) == Some(vs[k..])
  {
    var at := index + ProductSize(cs[..k], vs[..k]);
    assert cs[k..][0] == cs[k] && cs[k..][1..] == cs[k + 1..] && vs[k..] == [vs[k]] + vs[k + 1..];
    assert cs[..k + 1] == cs[..k] + [cs[k]] && vs[..k + 1] == vs[..k] + [vs[k]];
    ProductSizeAppend(cs[..k], vs[..k], cs[k], vs[k]);
    DecodeCons(cs[k..], b, at, vs[k], vs[k + 1..]);
  }

  /** Conversely, fields readable at those offsets are what `deserialize` gives. */
  lemma OffsetsGiveDecode<V>(cs: seq<FieldCodec<V>>, b: seq<byte>, index: nat, vs: seq<V>)
    requires |vs| == |cs|
    requires forall j {:trigger ProductSize(cs[..j], vs[..j])} :: 0 <= j < |cs| ==> cs[j].read(b, index + ProductSize(cs[..j], vs[..j])) == Some(vs[j])
    ensures ProductDecode(cs, b, index) == Some(vs)
  {
    assert cs[0..] == cs && vs[0..] == vs && ProductSize(cs[..0], vs[..0]) == 0;
    SuffixDecodes(cs, b, index, vs, 0);
  }

  /**
   * The offsets the generated `deserialize` reads at: it yields `vs` exactly
   * when, for every field, reading at `index` plus the sizes of the fields
   * before it gives that field's value.
   */
  lemma DecodeAtOffsets<V>(cs: seq<FieldCodec<V>>, b: seq<byte>, index: nat, vs: seq<V>)
    ensures ProductDecode(cs, b, index) == Some(vs) <==> ReadsAtOffsets(cs, b, index, vs)
  {
    if ProductDecode(cs, b, index) == Some(vs) {
      DecodeReadsAtOffsets(cs, b, index, vs);
    }
    if ReadsAtOffsets(cs, b, index, vs) {
      OffsetsGiveDecode(cs, b, index, vs);
    }
  }

  /**
   * When the fields before field `|vs|` decode to `vs` but field `|vs|` cannot
   * be read at its offset, the whole `deserialize` is `None`, whatever fields
   * follow.
   */
  lemma {:induction false} FirstFailure<V>(cs: seq<FieldCodec<V>>, b: seq<byte>, index: nat, vs: seq<V>)
    requires |vs| < |cs|
    requires ProductDecode(cs[..|vs|], b, index) == Some(vs)
    requires cs[|vs|].read(b, index + ProductSize(cs[..|vs|], vs)) == None
    ensures ProductDecode(cs, b, index) == None
  {
    if vs != [] {
      var n := |vs|;
      var next := index + cs[0].size(vs[0]);
      assert cs[..n][0] == cs[0];
      assert cs[..n][1..] == cs[1..][..n - 1];
      assert ProductDecode(cs[..n], b, index) == Some([vs[0]] + vs[1..]);
      assert cs[0].read(b, index) == Some(vs[0]);
      assert ProductDecode(cs[1..][..n - 1], b, next) == Some(vs[1..]);
      assert cs[1..][n - 1] == cs[n];
      FirstFailure(cs[1..], b, next, vs[1..]);
    }
  }

  /** Reading a field at the start of its own bytes gives it back. */
  lemma SoundRead<V(!new)>(c: FieldCodec<V>, v: V, pre: seq<byte>, post: seq<byte>)
    requires Sound(c) && c.accepts(v)
    ensures c.read(pre + c.serialize(v) + post, |pre|) == Some(v)
    ensures c.size(v) == |c.serialize(v)|
  {
    var b := pre + c.serialize(v) + post;
    assert b[|pre|..|pre| + |c.serialize(v)|] == c.serialize(v);
  }

  /** The bytes of the struct are as long as its `size()` says. */
  lemma {:induction false} ProductSizeIsLength<V(!new)>(cs: seq<FieldCodec<V>>, vs: seq<V>)
    requires Fits(cs, vs)
    ensures ProductSize(cs, vs) == |ProductEncode(cs, vs)|
  {
    if cs != [] {
      FitsSplit(cs, vs);
      ProductSizeIsLength(cs[1..], vs[1..]);
    }
  }

  /** The first field fits, and so do the others. */
  lemma FitsSplit<V(!new)>(cs: seq<FieldCodec<V>>, vs: seq<V>)
    requires Fits(cs, vs) && cs != []
    ensures Sound(cs[0]) && cs[0].accepts(vs[0])
    ensures Fits(cs[1..], vs[1..])
  {
    assert Sound(cs[0]) && cs[0].accepts(vs[0]);
  }

  /**
   * Round trip of the generated code: with codecs that work for every field,
   * `deserialize` at the start of the struct's bytes gives the fields back,
   * whatever bytes surround them.
   */
  lemma {:induction false} ProductRoundTrip<V(!new)>(cs: seq<FieldCodec<V>>, vs: seq<V>, pre: seq<byte>, post: seq<byte>)
    requires Fits(cs, vs)
    ensures ProductDecode(cs, pre + ProductEncode(cs, vs) + post, |pre|) == Some(vs)
  {
    if cs != [] {
      var c, v := cs[0], vs[0];
      var e := c.serialize(v);
      var tail := ProductEncode(cs[1..], vs[1..]);
      var b := pre + ProductEncode(cs, vs) + post;
      assert [v] + vs[1..] == vs;
      assert b == pre + e + (tail + post);
      assert b == (pre + e) + tail + post;
      FitsSplit(cs, vs);
      SoundRead(c, v, pre, tail + post);
      ProductRoundTrip(cs[1..], vs[1..], pre + e, post);
    }
  }

  lemma {:induction false} ProductEncodeAppend<V>(cs: seq<FieldCodec<V>>, vs: seq<V>, c: FieldCodec<V>, v: V)
    requires |cs| == |vs|
    ensures ProductEncode(cs + [c], vs + [v]) == ProductEncode(cs, vs) + c.serialize(v)
  {
    if cs == [] {
      assert cs + [c] == [c] && vs + [v] == [v];
    } else {
      assert (cs + [c])[1..] == cs[1..] + [c] && (vs + [v])[1..] == vs[1..] + [v];
      ProductEncodeAppend(cs[1..], vs[1..], c, v);
    }
  }

  lemma DecodeStep<V>(cs: seq<FieldCodec<V>>, b: seq<byte>, index: nat, j: nat, f: V)
    requires j < |cs| && cs[j].read(b, index) == Some(f)
    ensures ProductDecode(cs[j..], b, index) == Prepend([f], ProductDecode(cs[j + 1..], b, index + cs[j].size(f)))
  {
    assert cs[j..][1..] == cs[j + 1..];
  }

  lemma PrependTwice<V>(fields: seq<V>, f: V, o: Option<seq<V>>)
    ensures Prepend(fields, Prepend([f], o)) == Prepend(fields + [f], o)
  {
    if o.Some? {
      assert fields + ([f] + o.value) == fields + [f] + o.value;
    }
  }

  /** Reading field `j` moves it from what is left to decode to the fields decoded so far. */
  lemma NextField<V>(cs: seq<FieldCodec<V>>, b: seq<byte>, at: nat, j: nat, f: V, fields: seq<V>)
    requires j < |cs| && cs[j].read(b, at) == Some(f)
    ensures Prepend(fields, ProductDecode(cs[j..], b, at))
         == Prepend(fields + [f], ProductDecode(cs[j + 1..], b, at + cs[j].size(f)))
  {
    DecodeStep(cs, b, at, j, f);
    PrependTwice(fields, f, ProductDecode(cs[j + 1..], b, at + cs[j].size(f)));
  }

  // ----- The generated code, as it runs ------------------------------------

  /** Generated `serialize`: a new `Bytes`, then each field's bytes appended in turn. */
  method SerializeStruct<V>(cs: seq<FieldCodec<V>>, vs: seq<V>) returns (bytes: Bytes)
    requires |cs| == |vs|
    ensures fresh(bytes) && bytes.Valid()
    ensures bytes.data == ProductEncode(cs, vs) && bytes.current == 0
  {
    bytes := new Bytes();
    for i := 0 to |cs|
      invariant fresh(bytes) && bytes.Valid()
      invariant bytes.data == ProductEncode(cs[..i], vs[..i]) && bytes.current == 0
    {
      assert cs[..i + 1] == cs[..i] + [cs[i]] && vs[..i + 1] == vs[..i] + [vs[i]];
      ProductEncodeAppend(cs[..i], vs[..i], cs[i], vs[i]);
      var _ := bytes.Write(cs[i].serialize(vs[i]));
    }
    assert cs[..|cs|] == cs && vs[..|vs|] == vs;
  }

  /**
   * Generated `deserialize(bytes, index)`: reads the fields in declaration
   * order from a mutable index that each field's `size()` advances; returns
   * `None` at the first field that cannot be read.
   */
  method DeserializeStruct<V>(cs: seq<FieldCodec<V>>, bytes: Bytes, index: nat) returns (r: Option<seq<V>>)
    ensures r == ProductDecode(cs, bytes.data, index)
  {
    var data := bytes.data;
    var at: nat := index;
    var fields: seq<V> := [];
    assert cs[0..] == cs;
    if ProductDecode(cs, data, index).Some? {
      assert [] + ProductDecode(cs, data, index).value == ProductDecode(cs, data, index).value;
    }
    for j := 0 to |cs|
      invariant |fields| == j
      invariant ProductDecode(cs, data, index) == Prepend(fields, ProductDecode(cs[j..], data, at))
    {
      var field := cs[j].read(data, at);
      if field.None? {
        assert cs[j..][0] == cs[j];
        return None;
      }
      NextField(cs, data, at, j, field.value, fields);
      fields := fields + [field.value];
      at := at + cs[j].size(field.value);
    }
    assert cs[|cs|..] == [];
    assert fields + [] == fields;
    return Some(fields);
  }
}
