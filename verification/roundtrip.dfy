/**
 * The round trip: every value of a type decodes from its own encoding, with
 * whatever follows left unread. This is what lets values written one after
 * the other into a `Bytes` be read back one after the other.
 */
module RoundTripLemmas {
  import opened Wrappers
  import opened ByteBuffer
  import opened BigEndian
  import opened Wire

  /** A `usize` count reads back from its 8 bytes. */
  lemma CountRoundTrip(n: nat, rest: seq<byte>)
    requires n < USIZE_LIMIT
    ensures DecodeCount(IntBytes(Usize, n) + rest) == Ok(Count(n, rest))
  {
    var s := IntBytes(Usize, n) + rest;
    assert s[..8] == IntBytes(Usize, n) && s[8..] == rest;
    IntRoundTrip(Usize, n);
  }

  /** A number reads back from its `size_of::<T>()` bytes. */
  lemma IntDecodes(k: IntKind, n: int, rest: seq<byte>)
    requires InRange(k, n)
    ensures DecodeInt(k, IntBytes(k, n) + rest) == Ok(Decoded(Num(k, n), rest))
  {
    var s := IntBytes(k, n) + rest;
    assert s[..Width(k)] == IntBytes(k, n) && s[Width(k)..] == rest;
    IntRoundTrip(k, n);
  }

  /** `decode(encode(v))` gives `v` back and consumes exactly `encode(v)`. */
  lemma {:induction false} RoundTrip(t: Ty, v: Value, rest: seq<byte>)
    requires HasType(v, t)
    ensures Decode(t, Encode(v) + rest) == Ok(Decoded(v, rest))
    decreases v, 1
  {
    match t
    case IntT(k) => IntDecodes(k, v.n, rest);
    case VecT(e) => VecRoundTrip(e, v, rest);
    case StringT => StringRoundTrip(v, rest);
    case BoxT(bt) => RoundTrip(bt, v.inner, rest);
    case OptionT(p) => OptionRoundTrip(p, v, rest);
    case HashMapT(kt, vt) => HashMapRoundTrip(kt, vt, v, rest);
    case ArrayT(e, n) =>
      ManyRoundTrip(e, v.items, rest, []);
      assert [] + v.items == v.items;
    case TupleT(ts) =>
      ComponentsRoundTrip(ts, v.items, rest, []);
      assert [] + v.items == v.items;
  }

  /** `Vec<T>`: the `usize` count, then the elements. */
  lemma {:induction false} VecRoundTrip(e: Ty, v: Value, rest: seq<byte>)
    requires HasType(v, VecT(e))
    ensures Decode(VecT(e), Encode(v) + rest) == Ok(Decoded(v, rest))
    decreases v, 0
  {
    var items := v.items;
    CountRoundTrip(|items|, EncodeAll(items) + rest);
    assert Encode(v) + rest == IntBytes(Usize, |items|) + (EncodeAll(items) + rest);
    ManyRoundTrip(e, items, rest, []);
    assert [] + items == items;
  }

  /** `String`: the `usize` byte count, then the UTF-8 bytes. */
  lemma StringRoundTrip(v: Value, rest: seq<byte>)
    requires HasType(v, StringT)
    ensures Decode(StringT, Encode(v) + rest) == Ok(Decoded(v, rest))
  {
    var b := v.utf8;
    CountRoundTrip(|b|, b + rest);
    assert Encode(v) + rest == IntBytes(Usize, |b|) + (b + rest);
    assert (b + rest)[..|b|] == b && (b + rest)[|b|..] == rest;
  }

  /** `Option<T>`: discriminant 0 and the payload, or discriminant 1 alone. */
  lemma {:induction false} OptionRoundTrip(p: Ty, v: Value, rest: seq<byte>)
    requires HasType(v, OptionT(p))
    ensures Decode(OptionT(p), Encode(v) + rest) == Ok(Decoded(v, rest))
    decreases v, 0
  {
    if v.OptSome? {
      RoundTrip(p, v.payload, rest);
      SomeDecodes(p, v, rest);
    } else {
      IntDecodes(U64, NONE_TAG, rest);
    }
  }

  /** Discriminant 0, then whatever the payload decodes from. */
  lemma SomeDecodes(p: Ty, v: Value, rest: seq<byte>)
    requires v.OptSome? && Decode(p, Encode(v.payload) + rest) == Ok(Decoded(v.payload, rest))
    ensures Decode(OptionT(p), Encode(v) + rest) == Ok(Decoded(v, rest))
  {
    assert Encode(v) + rest == IntBytes(U64, SOME_TAG) + (Encode(v.payload) + rest);
    IntDecodes(U64, SOME_TAG, Encode(v.payload) + rest);
  }

  /** `HashMap<K, V>`: the `usize` entry count, then key and value per entry. */
  lemma {:induction false} HashMapRoundTrip(kt: Ty, vt: Ty, v: Value, rest: seq<byte>)
    requires HasType(v, HashMapT(kt, vt))
    ensures Decode(HashMapT(kt, vt), Encode(v) + rest) == Ok(Decoded(v, rest))
    decreases v, 0
  {
    var es := v.entries;
    CountRoundTrip(|es|, EncodeEntries(es) + rest);
    assert Encode(v) + rest == IntBytes(Usize, |es|) + (EncodeEntries(es) + rest);
    assert [] + es == es;
    EntriesRoundTrip(kt, vt, es, rest, []);
  }

  lemma EncodeAllCons(items: seq<Value>, rest: seq<byte>)
    requires items != []
    ensures EncodeAll(items) + rest == Encode(items[0]) + (EncodeAll(items[1..]) + rest)
  {
  }

  lemma DecodeManyStep(e: Ty, n: nat, s: seq<byte>, acc: seq<Value>, d: Decoded)
    requires n > 0 && Decode(e, s) == Ok(d)
    ensures DecodeMany(e, n, s, acc) == DecodeMany(e, n - 1, d.rest, acc + [d.value])
  {
  }

  lemma DecodeComponentsStep(ts: seq<Ty>, s: seq<byte>, acc: seq<Value>, d: Decoded)
    requires ts != [] && Decode(ts[0], s) == Ok(d)
    ensures DecodeComponents(ts, s, acc) == DecodeComponents(ts[1..], d.rest, acc + [d.value])
  {
  }

  /** Reading the first of several elements leaves the encodings of the others. */
  lemma {:induction false} ManyStep(e: Ty, items: seq<Value>, rest: seq<byte>, acc: seq<Value>)
    requires items != [] && HasType(items[0], e)
    ensures DecodeMany(e, |items|, EncodeAll(items) + rest, acc)
         == DecodeMany(e, |items| - 1, EncodeAll(items[1..]) + rest, acc + [items[0]])
    decreases items, 1
  {
    var tail := EncodeAll(items[1..]) + rest;
    EncodeAllCons(items, rest);
    RoundTrip(e, items[0], tail);
    DecodeManyStep(e, |items|, EncodeAll(items) + rest, acc, Decoded(items[0], tail));
  }

  /** Elements written one after another are read back in the same order. */
  lemma {:induction false} ManyRoundTrip(e: Ty, items: seq<Value>, rest: seq<byte>, acc: seq<Value>)
    requires forall i :: 0 <= i < |items| ==> HasType(items[i], e)
    ensures DecodeMany(e, |items|, EncodeAll(items) + rest, acc) == Ok(Decoded(Vec(acc + items), rest))
    decreases items, 2
  {
    if items == [] {
      assert EncodeAll(items) + rest == rest;
      assert acc + items == acc;
    } else {
      assert acc + [items[0]] + items[1..] == acc + items;
      ManyRoundTrip(e, items[1..], rest, acc + [items[0]]);
      ManyStep(e, items, rest, acc);
    }
  }

  /** Reading the first component leaves the encodings of the others. */
  lemma {:induction false} ComponentsStep(ts: seq<Ty>, items: seq<Value>, rest: seq<byte>, acc: seq<Value>)
    requires items != [] && |items| == |ts| && HasType(items[0], ts[0])
    ensures DecodeComponents(ts, EncodeAll(items) + rest, acc)
         == DecodeComponents(ts[1..], EncodeAll(items[1..]) + rest, acc + [items[0]])
    decreases items, 1
  {
    var tail := EncodeAll(items[1..]) + rest;
    EncodeAllCons(items, rest);
    RoundTrip(ts[0], items[0], tail);
    DecodeComponentsStep(ts, EncodeAll(items) + rest, acc, Decoded(items[0], tail));
  }

  /** The components of a tuple are read back in declaration order. */
  lemma {:induction false} ComponentsRoundTrip(ts: seq<Ty>, items: seq<Value>, rest: seq<byte>, acc: seq<Value>)
    requires |items| == |ts|
    requires forall i :: 0 <= i < |ts| ==> HasType(items[i], ts[i])
    ensures DecodeComponents(ts, EncodeAll(items) + rest, acc) == Ok(Decoded(Tuple(acc + items), rest))
    decreases items, 2
  {
    if items == [] {
      assert EncodeAll(items) + rest == rest;
      assert acc + items == acc;
    } else {
      assert acc + [items[0]] + items[1..] == acc + items;
      ComponentsRoundTrip(ts[1..], items[1..], rest, acc + [items[0]]);
      ComponentsStep(ts, items, rest, acc);
    }
  }

  /** One entry: its key, then its value. */
  lemma {:induction false} EntryRoundTrip(kt: Ty, vt: Ty, e: Entry, rest: seq<byte>)
    requires HasType(e.key, kt) && HasType(e.val, vt)
    ensures Decode(kt, EncodeEntry(e) + rest) == Ok(Decoded(e.key, Encode(e.val) + rest))
    ensures Decode(vt, Encode(e.val) + rest) == Ok(Decoded(e.val, rest))
    decreases e
  {
    assert EncodeEntry(e) + rest == Encode(e.key) + (Encode(e.val) + rest);
    RoundTrip(kt, e.key, Encode(e.val) + rest);
    RoundTrip(vt, e.val, rest);
  }

  lemma DecodeEntriesStep(kt: Ty, vt: Ty, n: nat, s: seq<byte>, acc: seq<Entry>, k: Decoded, v: Decoded)
    requires n > 0 && Decode(kt, s) == Ok(k) && Decode(vt, k.rest) == Ok(v)
    ensures DecodeEntries(kt, vt, n, s, acc) == DecodeEntries(kt, vt, n - 1, v.rest, Insert(acc, k.value, v.value))
  {
  }

  lemma EncodeEntriesCons(es: seq<Entry>, rest: seq<byte>)
    requires es != []
    ensures EncodeEntries(es) + rest == EncodeEntry(es[0]) + (EncodeEntries(es[1..]) + rest)
  {
  }

  /** A key absent from `acc` and from the rest of a distinct list goes at the end. */
  lemma FreshKey(acc: seq<Entry>, es: seq<Entry>)
    requires es != [] && DistinctKeys(acc + es)
    ensures !HasKey(acc, es[0].key)
    ensures DistinctKeys(acc + [es[0]] + es[1..])
  {
    forall j | 0 <= j < |acc|
      ensures acc[j].key != es[0].key
    {
      assert (acc + es)[j] == acc[j] && (acc + es)[|acc|] == es[0];
    }
    assert acc + [es[0]] + es[1..] == acc + es;
  }

  /** Reading the first entry inserts it into what was read before. */
  lemma {:induction false} EntriesRead(kt: Ty, vt: Ty, es: seq<Entry>, rest: seq<byte>, acc: seq<Entry>)
    requires es != [] && HasType(es[0].key, kt) && HasType(es[0].val, vt)
    ensures DecodeEntries(kt, vt, |es|, EncodeEntries(es) + rest, acc)
         == DecodeEntries(kt, vt, |es| - 1, EncodeEntries(es[1..]) + rest, Insert(acc, es[0].key, es[0].val))
    decreases es, 0
  {
    var e := es[0];
    var tail := EncodeEntries(es[1..]) + rest;
    EncodeEntriesCons(es, rest);
    EntryRoundTrip(kt, vt, e, tail);
    DecodeEntriesStep(kt, vt, |es|, EncodeEntries(es) + rest, acc, Decoded(e.key, Encode(e.val) + tail), Decoded(e.val, tail));
  }

  /** Reading the first entry of a distinct list appends it to what was read before. */
  lemma EntriesStep(kt: Ty, vt: Ty, es: seq<Entry>, rest: seq<byte>, acc: seq<Entry>)
    requires es != [] && HasType(es[0].key, kt) && HasType(es[0].val, vt)
    requires DistinctKeys(acc + es)
    ensures DecodeEntries(kt, vt, |es|, EncodeEntries(es) + rest, acc)
         == DecodeEntries(kt, vt, |es| - 1, EncodeEntries(es[1..]) + rest, acc + [es[0]])
    ensures DistinctKeys(acc + [es[0]] + es[1..])
    decreases es, 1
  {
    FreshKey(acc, es);
    EntriesRead(kt, vt, es, rest, acc);
  }

  /** Entries with distinct keys are read back as the same entries, in the same order. */
  lemma {:induction false} EntriesRoundTrip(kt: Ty, vt: Ty, es: seq<Entry>, rest: seq<byte>, acc: seq<Entry>)
    requires forall i :: 0 <= i < |es| ==> HasType(es[i].key, kt) && HasType(es[i].val, vt)
    requires DistinctKeys(acc + es)
    ensures DecodeEntries(kt, vt, |es|, EncodeEntries(es) + rest, acc) == Ok(Decoded(HashMap(acc + es), rest))
    decreases es, 2
  {
    if es == [] {
      assert EncodeEntries(es) + rest == rest;
      assert acc + es == acc;
    } else {
      assert acc + [es[0]] + es[1..] == acc + es;
      EntriesStep(kt, vt, es, rest, acc);
      EntriesRoundTrip(kt, vt, es[1..], rest, acc + [es[0]]);
    }
  }
}
