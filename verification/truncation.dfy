/**
 * Truncation safety: decoding any proper prefix of a value's encoding fails
 * with the end-of-data I/O error of `read_exact`, never with a value. Every
 * decoder stops at the first element that cannot be read and returns no
 * partially built value.
 */
module Truncation {
  import opened Wrappers
  import opened ByteBuffer
  import opened BigEndian
  import opened Wire
  import opened RoundTripLemmas

  /** `p` is a proper prefix of `s`. */
  predicate ProperPrefix(p: seq<byte>, s: seq<byte>) {
    |p| < |s| && p == s[..|p|]
  }

  const EOF := IOError(UnexpectedEof)

  /** A proper prefix of `h + b` that covers `h` is `h` and a proper prefix of `b`. */
  lemma SplitPrefix(h: seq<byte>, b: seq<byte>, p: seq<byte>)
    requires ProperPrefix(p, h + b) && |p| >= |h|
    ensures p == h + p[|h|..] && ProperPrefix(p[|h|..], b)
  {
    assert p[..|h|] == (h + b)[..|h|] == h;
    assert p == p[..|h|] + p[|h|..];
  }

  /** A proper prefix of `h + b` that stops inside `h` is a proper prefix of `h`. */
  lemma ShortPrefix(h: seq<byte>, b: seq<byte>, p: seq<byte>)
    requires ProperPrefix(p, h + b) && |p| < |h|
    ensures ProperPrefix(p, h)
  {
    assert (h + b)[..|p|] == h[..|p|];
  }

  // ----- The first failure ends the whole read, with its own error ---------

  /** The first element that cannot be read ends the whole sequence with its error. */
  lemma ManyStops(e: Ty, n: nat, s: seq<byte>, acc: seq<Value>)
    requires n > 0 && Decode(e, s).Err?
    ensures DecodeMany(e, n, s, acc) == Err(Decode(e, s).error)
  {
  }

  /** A component that cannot be read ends the tuple with its error. */
  lemma ComponentStops(ts: seq<Ty>, s: seq<byte>, acc: seq<Value>)
    requires ts != [] && Decode(ts[0], s).Err?
    ensures DecodeComponents(ts, s, acc) == Err(Decode(ts[0], s).error)
  {
  }

  /** A key that cannot be read ends the map with its error. */
  lemma KeyStops(kt: Ty, vt: Ty, n: nat, s: seq<byte>, acc: seq<Entry>)
    requires n > 0 && Decode(kt, s).Err?
    ensures DecodeEntries(kt, vt, n, s, acc) == Err(Decode(kt, s).error)
  {
  }

  /** A value that cannot be read after its key ends the map with its error. */
  lemma ValueStops(kt: Ty, vt: Ty, n: nat, s: seq<byte>, acc: seq<Entry>)
    requires n > 0 && Decode(kt, s).Ok? && Decode(vt, Decode(kt, s).value.rest).Err?
    ensures DecodeEntries(kt, vt, n, s, acc) == Err(Decode(vt, Decode(kt, s).value.rest).error)
  {
  }

  /** Decoding a proper prefix of an encoding fails with `UnexpectedEof`. */
  lemma {:induction false} TruncatedFails(t: Ty, v: Value, p: seq<byte>)
    requires HasType(v, t) && ProperPrefix(p, Encode(v))
    ensures Decode(t, p) == Err(EOF)
    decreases v, 1
  {
    match t
    case IntT(k) =>
    case VecT(e) => VecTruncated(e, v, p);
    case StringT => StringTruncated(v, p);
    case BoxT(bt) => TruncatedFails(bt, v.inner, p);
    case OptionT(pt) => OptionTruncated(pt, v, p);
    case HashMapT(kt, vt) => HashMapTruncated(kt, vt, v, p);
    case ArrayT(e, n) => ManyTruncated(e, v.items, p, []);
    case TupleT(ts) => ComponentsTruncated(ts, v.items, p, []);
  }

  lemma {:induction false} VecTruncated(e: Ty, v: Value, p: seq<byte>)
    requires HasType(v, VecT(e)) && ProperPrefix(p, Encode(v))
    ensures Decode(VecT(e), p) == Err(EOF)
    decreases v, 0
  {
    var h := IntBytes(Usize, |v.items|);
    if |p| >= 8 {
      SplitPrefix(h, EncodeAll(v.items), p);
      CountRoundTrip(|v.items|, p[8..]);
      ManyTruncated(e, v.items, p[8..], []);
    }
  }

  lemma StringTruncated(v: Value, p: seq<byte>)
    requires HasType(v, StringT) && ProperPrefix(p, Encode(v))
    ensures Decode(StringT, p) == Err(EOF)
  {
    var h := IntBytes(Usize, |v.utf8|);
    if |p| >= 8 {
      SplitPrefix(h, v.utf8, p);
      CountRoundTrip(|v.utf8|, p[8..]);
    }
  }

  lemma {:induction false} OptionTruncated(pt: Ty, v: Value, p: seq<byte>)
    requires HasType(v, OptionT(pt)) && ProperPrefix(p, Encode(v))
    ensures Decode(OptionT(pt), p) == Err(EOF)
    decreases v, 0
  {
    if v.OptSome? && |p| >= 8 {
      var h := IntBytes(U64, SOME_TAG);
      SplitPrefix(h, Encode(v.payload), p);
      IntDecodes(U64, SOME_TAG, p[8..]);
      TruncatedFails(pt, v.payload, p[8..]);
    }
  }

  lemma {:induction false} HashMapTruncated(kt: Ty, vt: Ty, v: Value, p: seq<byte>)
    requires HasType(v, HashMapT(kt, vt)) && ProperPrefix(p, Encode(v))
    ensures Decode(HashMapT(kt, vt), p) == Err(EOF)
    decreases v, 0
  {
    var h := IntBytes(Usize, |v.entries|);
    if |p| >= 8 {
      SplitPrefix(h, EncodeEntries(v.entries), p);
      CountRoundTrip(|v.entries|, p[8..]);
      EntriesTruncated(kt, vt, v.entries, p[8..], []);
    }
  }

  /** An element cut short stops a stream of elements. */
  lemma {:induction false} ManyShort(e: Ty, items: seq<Value>, p: seq<byte>, acc: seq<Value>)
    requires items != [] && HasType(items[0], e)
    requires ProperPrefix(p, EncodeAll(items)) && |p| < |Encode(items[0])|
    ensures DecodeMany(e, |items|, p, acc) == Err(EOF)
    decreases items, 1
  {
    ShortPrefix(Encode(items[0]), EncodeAll(items[1..]), p);
    TruncatedFails(e, items[0], p);
    ManyStops(e, |items|, p, acc);
  }

  /** A whole first element is read, and the stream goes on after it. */
  lemma ManyWhole(e: Ty, items: seq<Value>, p: seq<byte>, acc: seq<Value>)
    requires items != [] && HasType(items[0], e) && |Encode(items[0])| <= |p|
    requires p[..|Encode(items[0])|] == Encode(items[0])
    ensures DecodeMany(e, |items|, p, acc) == DecodeMany(e, |items| - 1, p[|Encode(items[0])|..], acc + [items[0]])
  {
    var h := Encode(items[0]);
    assert p == h + p[|h|..];
    RoundTrip(e, items[0], p[|h|..]);
    DecodeManyStep(e, |items|, p, acc, Decoded(items[0], p[|h|..]));
  }

  /** A stream of elements cut short fails at the element that was cut. */
  lemma {:induction false} ManyTruncated(e: Ty, items: seq<Value>, p: seq<byte>, acc: seq<Value>)
    requires forall i :: 0 <= i < |items| ==> HasType(items[i], e)
    requires ProperPrefix(p, EncodeAll(items))
    ensures DecodeMany(e, |items|, p, acc) == Err(EOF)
    decreases items, 2
  {
    var h := Encode(items[0]);
    assert EncodeAll(items) == h + EncodeAll(items[1..]);
    if |p| < |h| {
      ManyShort(e, items, p, acc);
    } else {
      SplitPrefix(h, EncodeAll(items[1..]), p);
      ManyTruncated(e, items[1..], p[|h|..], acc + [items[0]]);
      ManyWhole(e, items, p, acc);
    }
  }

  /** A component cut short stops a tuple. */
  lemma {:induction false} ComponentsShort(ts: seq<Ty>, items: seq<Value>, p: seq<byte>, acc: seq<Value>)
    requires items != [] && |items| == |ts| && HasType(items[0], ts[0])
    requires ProperPrefix(p, EncodeAll(items)) && |p| < |Encode(items[0])|
    ensures DecodeComponents(ts, p, acc) == Err(EOF)
    decreases items, 1
  {
    ShortPrefix(Encode(items[0]), EncodeAll(items[1..]), p);
    TruncatedFails(ts[0], items[0], p);
    ComponentStops(ts, p, acc);
  }

  /** A whole first component is read, and the tuple goes on after it. */
  lemma ComponentsWhole(ts: seq<Ty>, items: seq<Value>, p: seq<byte>, acc: seq<Value>)
    requires items != [] && |items| == |ts| && HasType(items[0], ts[0]) && |Encode(items[0])| <= |p|
    requires p[..|Encode(items[0])|] == Encode(items[0])
    ensures DecodeComponents(ts, p, acc) == DecodeComponents(ts[1..], p[|Encode(items[0])|..], acc + [items[0]])
  {
    var h := Encode(items[0]);
    assert p == h + p[|h|..];
    RoundTrip(ts[0], items[0], p[|h|..]);
    DecodeComponentsStep(ts, p, acc, Decoded(items[0], p[|h|..]));
  }

  lemma {:induction false} ComponentsTruncated(ts: seq<Ty>, items: seq<Value>, p: seq<byte>, acc: seq<Value>)
    requires |items| == |ts|
    requires forall i :: 0 <= i < |ts| ==> HasType(items[i], ts[i])
    requires ProperPrefix(p, EncodeAll(items))
    ensures DecodeComponents(ts, p, acc) == Err(EOF)
    decreases items, 2
  {
    var h := Encode(items[0]);
    assert EncodeAll(items) == h + EncodeAll(items[1..]);
    if |p| < |h| {
      ComponentsShort(ts, items, p, acc);
    } else {
      SplitPrefix(h, EncodeAll(items[1..]), p);
      ComponentsTruncated(ts[1..], items[1..], p[|h|..], acc + [items[0]]);
      ComponentsWhole(ts, items, p, acc);
    }
  }

  /** One entry cut short: inside its key, or inside its value. */
  lemma {:induction false} EntryTruncated(kt: Ty, vt: Ty, e: Entry, p: seq<byte>, n: nat, acc: seq<Entry>)
    requires HasType(e.key, kt) && HasType(e.val, vt) && n > 0
    requires ProperPrefix(p, EncodeEntry(e))
    ensures DecodeEntries(kt, vt, n, p, acc) == Err(EOF)
    decreases e
  {
    var hk := Encode(e.key);
    if |p| < |hk| {
      ShortPrefix(hk, Encode(e.val), p);
      TruncatedFails(kt, e.key, p);
      KeyStops(kt, vt, n, p, acc);
    } else {
      SplitPrefix(hk, Encode(e.val), p);
      RoundTrip(kt, e.key, p[|hk|..]);
      TruncatedFails(vt, e.val, p[|hk|..]);
      ValueStops(kt, vt, n, p, acc);
    }
  }

  /** A whole first entry is read and inserted, and the stream goes on after it. */
  lemma EntriesWhole(kt: Ty, vt: Ty, es: seq<Entry>, p: seq<byte>, acc: seq<Entry>)
    requires es != [] && HasType(es[0].key, kt) && HasType(es[0].val, vt)
    requires |EncodeEntry(es[0])| <= |p| && p[..|EncodeEntry(es[0])|] == EncodeEntry(es[0])
    ensures DecodeEntries(kt, vt, |es|, p, acc)
         == DecodeEntries(kt, vt, |es| - 1, p[|EncodeEntry(es[0])|..], Insert(acc, es[0].key, es[0].val))
  {
    var e := es[0];
    var p' := p[|EncodeEntry(e)|..];
    assert p == EncodeEntry(e) + p';
    EntryRoundTrip(kt, vt, e, p');
    DecodeEntriesStep(kt, vt, |es|, p, acc, Decoded(e.key, Encode(e.val) + p'), Decoded(e.val, p'));
  }

  lemma {:induction false} EntriesTruncated(kt: Ty, vt: Ty, es: seq<Entry>, p: seq<byte>, acc: seq<Entry>)
    requires forall i :: 0 <= i < |es| ==> HasType(es[i].key, kt) && HasType(es[i].val, vt)
    requires ProperPrefix(p, EncodeEntries(es))
    ensures DecodeEntries(kt, vt, |es|, p, acc) == Err(EOF)
    decreases es
  {
    var e := es[0];
    var h := EncodeEntry(e);
    assert EncodeEntries(es) == h + EncodeEntries(es[1..]);
    if |p| < |h| {
      ShortPrefix(h, EncodeEntries(es[1..]), p);
      EntryTruncated(kt, vt, e, p, |es|, acc);
    } else {
      SplitPrefix(h, EncodeEntries(es[1..]), p);
      EntriesTruncated(kt, vt, es[1..], p[|h|..], Insert(acc, e.key, e.val));
      EntriesWhole(kt, vt, es, p, acc);
    }
  }
}
