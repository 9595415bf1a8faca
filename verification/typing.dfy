/**
 * What a successful `deserialize` gives back: a value of the type it was
 * asked for, read from the front of the input, so that what it leaves unread
 * is the input's tail. Every integer read is in its type's range, every
 * `String` is UTF-8, every count fits a `usize`, and a `HashMap` never holds
 * a key twice, even when the stream repeats one.
 */
module DecodeTyping {
  import opened Wrappers
  import opened ByteBuffer
  import opened BigEndian
  import opened Wire
  import opened RoundTripLemmas
  import opened WireProperties

  /** `rest` is what is left of `s` once something has been read from its front. */
  predicate Tail(rest: seq<byte>, s: seq<byte>) {
    |rest| <= |s| && rest == s[|s| - |rest|..]
  }

  lemma TailTrans(a: seq<byte>, b: seq<byte>, c: seq<byte>)
    requires Tail(a, b) && Tail(b, c)
    ensures Tail(a, c)
  {
    assert c[|c| - |b|..][|b| - |a|..] == c[|c| - |a|..];
  }

  /** Every entry's key is of type `kt` and its value of type `vt`. */
  predicate EntriesOfType(es: seq<Entry>, kt: Ty, vt: Ty) {
    forall i :: 0 <= i < |es| ==> HasType(es[i].key, kt) && HasType(es[i].val, vt)
  }

  /** `deserialize` for the type `t` gives a value of type `t` and reads only from the front. */
  lemma {:induction false} DecodeTyped(t: Ty, s: seq<byte>)
    ensures Decode(t, s).Ok? ==> HasType(Decode(t, s).value.value, t) && Tail(Decode(t, s).value.rest, s)
    decreases t, 2
  {
    match t
    case IntT(k) => IntTyped(k, s);
    case VecT(e) => VecTyped(e, s);
    case StringT => StringTyped(s);
    case BoxT(b) => BoxTyped(b, s);
    case OptionT(p) => OptionTyped(p, s);
    case HashMapT(kt, vt) => HashMapTyped(kt, vt, s);
    case ArrayT(e, n) => ArrayTyped(e, n, s);
    case TupleT(ts) => ComponentsTyped(ts, s, []);
  }

  /** A number read is in its type's range, and leaves a suffix of the input. */
  lemma IntTyped(k: IntKind, s: seq<byte>)
    ensures DecodeInt(k, s).Ok? ==> HasType(DecodeInt(k, s).value.value, IntT(k)) && Tail(DecodeInt(k, s).value.rest, s)
  {
  }

  /** A count is read from the front of the input. */
  lemma CountTail(s: seq<byte>)
    ensures DecodeCount(s).Ok? ==> Tail(DecodeCount(s).value.rest, s)
  {
  }

  /** `Vec<T>`: as many elements of type `T` as the count says. */
  lemma {:induction false} VecTyped(e: Ty, s: seq<byte>)
    ensures DecodeVec(e, s).Ok? ==> HasType(DecodeVec(e, s).value.value, VecT(e)) && Tail(DecodeVec(e, s).value.rest, s)
    decreases VecT(e), 1
  {
    var c := DecodeCount(s);
    if c.Ok? {
      CountTail(s);
      ManyTyped(e, c.value.n, c.value.rest, []);
      var d := DecodeMany(e, c.value.n, c.value.rest, []);
      if d.Ok? {
        TailTrans(d.value.rest, c.value.rest, s);
      }
    }
  }

  /** `String`: bytes that passed the UTF-8 check, no more of them than a `usize` counts. */
  lemma StringTyped(s: seq<byte>)
    ensures DecodeString(s).Ok? ==> HasType(DecodeString(s).value.value, StringT) && Tail(DecodeString(s).value.rest, s)
  {
    var c := DecodeCount(s);
    if c.Ok? && |c.value.rest| >= c.value.n {
      CountTail(s);
      TailTrans(c.value.rest[c.value.n..], c.value.rest, s);
    }
  }

  /** `Box<T>`: a boxed value of type `T`. */
  lemma {:induction false} BoxTyped(b: Ty, s: seq<byte>)
    ensures DecodeBox(b, s).Ok? ==> HasType(DecodeBox(b, s).value.value, BoxT(b)) && Tail(DecodeBox(b, s).value.rest, s)
    decreases BoxT(b), 1
  {
    DecodeTyped(b, s);
  }

  /** `Option<T>`: `None`, or `Some` of a value of type `T`. */
  lemma {:induction false} OptionTyped(p: Ty, s: seq<byte>)
    ensures DecodeOption(p, s).Ok? ==> HasType(DecodeOption(p, s).value.value, OptionT(p)) && Tail(DecodeOption(p, s).value.rest, s)
    decreases OptionT(p), 1
  {
    var tag := DecodeInt(U64, s);
    if tag.Ok? {
      IntTyped(U64, s);
      DecodeTyped(p, tag.value.rest);
      var d := Decode(p, tag.value.rest);
      if d.Ok? {
        TailTrans(d.value.rest, tag.value.rest, s);
      }
    }
  }

  /** `HashMap<K, V>`: keys of type `K`, values of type `V`, no key twice. */
  lemma {:induction false} HashMapTyped(kt: Ty, vt: Ty, s: seq<byte>)
    ensures DecodeHashMap(kt, vt, s).Ok? ==> HasType(DecodeHashMap(kt, vt, s).value.value, HashMapT(kt, vt)) && Tail(DecodeHashMap(kt, vt, s).value.rest, s)
    decreases HashMapT(kt, vt), 1
  {
    var c := DecodeCount(s);
    if c.Ok? {
      CountTail(s);
      EntriesTyped(kt, vt, c.value.n, c.value.rest, []);
      var d := DecodeEntries(kt, vt, c.value.n, c.value.rest, []);
      if d.Ok? {
        TailTrans(d.value.rest, c.value.rest, s);
      }
    }
  }

  /** `[T; N]`: exactly N elements of type `T`. */
  lemma {:induction false} ArrayTyped(e: Ty, n: nat, s: seq<byte>)
    ensures DecodeArray(e, n, s).Ok? ==> HasType(DecodeArray(e, n, s).value.value, ArrayT(e, n)) && Tail(DecodeArray(e, n, s).value.rest, s)
    decreases ArrayT(e, n), 1
  {
    ManyTyped(e, n, s, []);
  }

  /** The element loop keeps what was read before and adds elements of type `e` only. */
  lemma {:induction false} ManyTyped(e: Ty, n: nat, s: seq<byte>, acc: seq<Value>)
    ensures var r := DecodeMany(e, n, s, acc);
      r.Ok? ==> && r.value.value.items[..|acc|] == acc
                && (forall i :: |acc| <= i < |r.value.value.items| ==> HasType(r.value.value.items[i], e))
                && Tail(r.value.rest, s)
    decreases e, 3, n
  {
    if n > 0 && Decode(e, s).Ok? {
      var d := Decode(e, s).value;
      DecodeTyped(e, s);
      DecodeManyStep(e, n, s, acc, d);
      ManyTyped(e, n - 1, d.rest, acc + [d.value]);
      var r := DecodeMany(e, n - 1, d.rest, acc + [d.value]);
      if r.Ok? {
        OneMore(e, acc, d.value, r.value.value.items);
        TailTrans(r.value.rest, d.rest, s);
      }
    }
  }

  /** An element of type `e` read after `acc`, and more of them after it. */
  lemma OneMore(e: Ty, acc: seq<Value>, x: Value, items: seq<Value>)
    requires |items| > |acc| && items[..|acc| + 1] == acc + [x] && HasType(x, e)
    requires forall i :: |acc| + 1 <= i < |items| ==> HasType(items[i], e)
    ensures items[..|acc|] == acc
    ensures forall i :: |acc| <= i < |items| ==> HasType(items[i], e)
  {
    assert items[..|acc|] == items[..|acc| + 1][..|acc|];
    assert items[|acc|] == (acc + [x])[|acc|];
  }

  /** The component loop keeps what was read before and gives component `i` the type `ts[i]`. */
  lemma {:induction false} ComponentsTyped(ts: seq<Ty>, s: seq<byte>, acc: seq<Value>)
    ensures var r := DecodeComponents(ts, s, acc);
      r.Ok? ==> && r.value.value.items[..|acc|] == acc
                && (forall i :: 0 <= i < |ts| ==> HasType(r.value.value.items[|acc| + i], ts[i]))
                && Tail(r.value.rest, s)
    decreases ts
  {
    if ts != [] {
      var d := Decode(ts[0], s);
      if d.Ok? {
        DecodeTyped(ts[0], s);
        var acc' := acc + [d.value.value];
        ComponentsTyped(ts[1..], d.value.rest, acc');
        var r := DecodeComponents(ts[1..], d.value.rest, acc');
        if r.Ok? {
          var items := r.value.value.items;
          assert items[..|acc'|] == acc';
          assert items[..|acc|] == acc'[..|acc|] == acc;
          forall i | 0 <= i < |ts|
            ensures HasType(items[|acc| + i], ts[i])
          {
            if i == 0 {
              assert items[|acc|] == acc'[|acc|];
            } else {
              assert ts[i] == ts[1..][i - 1] && |acc| + i == |acc'| + (i - 1);
            }
          }
          TailTrans(r.value.rest, d.value.rest, s);
        }
      }
    }
  }

  /** Every entry of `Insert(es, k, v)` is the inserted one or an entry of `es`. */
  lemma {:induction false} InsertFrom(es: seq<Entry>, k: Value, v: Value, i: nat)
    requires i < |Insert(es, k, v)|
    ensures Insert(es, k, v)[i] == Entry(k, v) || Insert(es, k, v)[i] in es
  {
    if es != [] && es[0].key != k && i > 0 {
      InsertFrom(es[1..], k, v, i - 1);
      assert Insert(es, k, v)[i] == Insert(es[1..], k, v)[i - 1];
    } else if es != [] && es[0].key == k && i > 0 {
      assert Insert(es, k, v)[i] == es[i];
    }
  }

  /**
   * Inserting an entry of the right types into entries of the right types with
   * distinct keys keeps both, and adds at most one entry.
   */
  lemma InsertKeeps(es: seq<Entry>, k: Value, v: Value, kt: Ty, vt: Ty)
    requires EntriesOfType(es, kt, vt) && DistinctKeys(es) && HasType(k, kt) && HasType(v, vt)
    ensures EntriesOfType(Insert(es, k, v), kt, vt) && DistinctKeys(Insert(es, k, v))
    ensures |Insert(es, k, v)| <= |es| + 1
  {
    var r := Insert(es, k, v);
    forall i | 0 <= i < |r|
      ensures HasType(r[i].key, kt) && HasType(r[i].val, vt)
    {
      InsertFrom(es, k, v, i);
    }
    InsertDistinct(es, k, v);
  }

  /**
   * The map loop: starting from entries of the right types with distinct keys,
   * it ends with entries of the right types with distinct keys, at most one
   * more per pair read.
   */
  lemma {:induction false} EntriesTyped(kt: Ty, vt: Ty, n: nat, s: seq<byte>, acc: seq<Entry>)
    requires EntriesOfType(acc, kt, vt) && DistinctKeys(acc)
    ensures var r := DecodeEntries(kt, vt, n, s, acc);
      r.Ok? ==> && EntriesOfType(r.value.value.entries, kt, vt)
                && DistinctKeys(r.value.value.entries)
                && |r.value.value.entries| <= |acc| + n
                && Tail(r.value.rest, s)
    decreases HashMapT(kt, vt), 0, n
  {
    if n > 0 && Decode(kt, s).Ok? && Decode(vt, Decode(kt, s).value.rest).Ok? {
      var k := Decode(kt, s).value;
      var v := Decode(vt, k.rest).value;
      DecodeTyped(kt, s);
      DecodeTyped(vt, k.rest);
      DecodeEntriesStep(kt, vt, n, s, acc, k, v);
      InsertKeeps(acc, k.value, v.value, kt, vt);
      var acc' := Insert(acc, k.value, v.value);
      EntriesTyped(kt, vt, n - 1, v.rest, acc');
      var r := DecodeEntries(kt, vt, n - 1, v.rest, acc');
      if r.Ok? {
        TailTrans(v.rest, k.rest, s);
        TailTrans(r.value.rest, v.rest, s);
      }
    }
  }

  /**
   * Encodings are prefix-free on each type: when two values of a type are
   * written and the bytes agree, so do the values and whatever followed them.
   * No two values of a type share an encoding.
   */
  lemma EncodePrefixFree(t: Ty, a: Value, b: Value, ra: seq<byte>, rb: seq<byte>)
    requires HasType(a, t) && HasType(b, t)
    requires Encode(a) + ra == Encode(b) + rb
    ensures a == b && ra == rb
  {
    RoundTrip(t, a, ra);
    RoundTrip(t, b, rb);
  }
}
