/**
 * Further properties of the wire format: exact integer widths, composition
 * of encodings, discriminant and UTF-8 rejection, and the `HashMap`
 * behaviour on repeated keys.
 */
module WireProperties {
  import opened Wrappers
  import opened ByteBuffer
  import opened BigEndian
  import opened Utf8
  import opened Wire
  import opened RoundTripLemmas

  /**
   * A number is written as exactly `size_of::<T>()` bytes whose big-endian
   * reading is its bit pattern (two's complement for signed types).
   */
  lemma IntEncoding(k: IntKind, n: int)
    requires InRange(k, n)
    ensures |Encode(Num(k, n))| == Width(k)
    ensures FromBe(Encode(Num(k, n))) == ToBits(k, n)
  {
    LimitIsPow(k);
    FromBeToBe(ToBits(k, n), Width(k));
  }

  /**
   * Two encodings written back to back are read back one after the other,
   * with no framing between them.
   */
  lemma Sequential(ta: Ty, a: Value, tb: Ty, b: Value, rest: seq<byte>)
    requires HasType(a, ta) && HasType(b, tb)
    ensures Decode(ta, Encode(a) + Encode(b) + rest) == Ok(Decoded(a, Encode(b) + rest))
    ensures Decode(tb, Encode(b) + rest) == Ok(Decoded(b, rest))
  {
    assert Encode(a) + Encode(b) + rest == Encode(a) + (Encode(b) + rest);
    RoundTrip(ta, a, Encode(b) + rest);
    RoundTrip(tb, b, rest);
  }

  /** An `Option` discriminant other than 0 and 1 is rejected as invalid data. */
  lemma OptionTagRejected(p: Ty, tag: nat, rest: seq<byte>)
    requires tag != SOME_TAG && tag != NONE_TAG && tag < Pow256(8)
    ensures Decode(OptionT(p), IntBytes(U64, tag) + rest) == Err(InvalidData)
  {
    IntDecodes(U64, tag, rest);
  }

  /** The `u64` discriminant in front of `s` is `tag` exactly when its bytes are `tag`'s. */
  lemma TagBytes(s: seq<byte>, tag: nat)
    requires |s| >= 8 && tag < Limit(U64)
    ensures DecodeInt(U64, s) == Ok(Decoded(Num(U64, IntFromBytes(U64, s[..8])), s[8..]))
    ensures IntFromBytes(U64, s[..8]) == tag <==> s[..8] == IntBytes(U64, tag)
  {
    IntBytesOnto(U64, s[..8]);
    IntRoundTrip(U64, tag);
  }

  /** `None` is decoded exactly from the discriminant 1, which has no payload. */
  lemma OptionNoneTag(p: Ty, s: seq<byte>, rest: seq<byte>)
    ensures Decode(OptionT(p), s) == Ok(Decoded(OptNone, rest))
        <==> |s| >= 8 && s[..8] == IntBytes(U64, NONE_TAG) && rest == s[8..]
  {
    if |s| >= 8 {
      TagBytes(s, NONE_TAG);
      TagBytes(s, SOME_TAG);
    }
  }

  /** `Some(x)` is decoded exactly from the discriminant 0 followed by `x`'s payload. */
  lemma OptionSomeTag(p: Ty, s: seq<byte>, x: Value, rest: seq<byte>)
    ensures Decode(OptionT(p), s) == Ok(Decoded(OptSome(x), rest))
        <==> |s| >= 8 && s[..8] == IntBytes(U64, SOME_TAG) && Decode(p, s[8..]) == Ok(Decoded(x, rest))
  {
    if Decode(OptionT(p), s) == Ok(Decoded(OptSome(x), rest)) {
      SomeHasTag(p, s, x, rest);
    }
    if |s| >= 8 && s[..8] == IntBytes(U64, SOME_TAG) && Decode(p, s[8..]) == Ok(Decoded(x, rest)) {
      TagGivesSome(p, s, x, rest);
    }
  }

  lemma SomeHasTag(p: Ty, s: seq<byte>, x: Value, rest: seq<byte>)
    requires Decode(OptionT(p), s) == Ok(Decoded(OptSome(x), rest))
    ensures |s| >= 8 && s[..8] == IntBytes(U64, SOME_TAG) && Decode(p, s[8..]) == Ok(Decoded(x, rest))
  {
    TagBytes(s, SOME_TAG);
  }

  lemma TagGivesSome(p: Ty, s: seq<byte>, x: Value, rest: seq<byte>)
    requires |s| >= 8 && s[..8] == IntBytes(U64, SOME_TAG) && Decode(p, s[8..]) == Ok(Decoded(x, rest))
    ensures Decode(OptionT(p), s) == Ok(Decoded(OptSome(x), rest))
  {
    TagBytes(s, SOME_TAG);
  }

  /**
   * A length-prefixed byte string decodes as a `String` exactly when it is
   * well-formed UTF-8; otherwise the result is `InvalidData`.
   */
  lemma StringUtf8(b: seq<byte>, rest: seq<byte>)
    requires |b| < USIZE_LIMIT
    ensures ValidUtf8(b) ==> Decode(StringT, IntBytes(Usize, |b|) + b + rest) == Ok(Decoded(Str(b), rest))
    ensures !ValidUtf8(b) ==> Decode(StringT, IntBytes(Usize, |b|) + b + rest) == Err(InvalidData)
  {
    assert IntBytes(Usize, |b|) + b + rest == IntBytes(Usize, |b|) + (b + rest);
    CountRoundTrip(|b|, b + rest);
    assert (b + rest)[..|b|] == b && (b + rest)[|b|..] == rest;
  }

  // ----- HashMap: entries are inserted in stream order ---------------------

  /** The map built by inserting `es` into `m` one after another: a later key overwrites. */
  function InsertAll(m: map<Value, Value>, es: seq<Entry>): map<Value, Value>
    decreases es
  {
    if es == [] then m else InsertAll(m[es[0].key := es[0].val], es[1..])
  }

  /** `HashMap::insert` sets one key and keeps every other binding. */
  lemma {:induction false} InsertAsMap(es: seq<Entry>, k: Value, v: Value)
    ensures AsMap(Insert(es, k, v)) == AsMap(es)[k := v]
  {
    if es != [] && es[0].key != k {
      InsertAsMap(es[1..], k, v);
      assert Insert(es, k, v) == [es[0]] + Insert(es[1..], k, v);
      assert ([es[0]] + Insert(es[1..], k, v))[1..] == Insert(es[1..], k, v);
    } else if es != [] {
      assert Insert(es, k, v)[1..] == es[1..];
    }
  }

  /** The keys of `Insert(es, k, v)` are those of `es` and `k`. */
  lemma {:induction false} InsertKeys(es: seq<Entry>, k: Value, v: Value, i: nat)
    requires i < |Insert(es, k, v)|
    ensures Insert(es, k, v)[i].key == k || HasKey(es, Insert(es, k, v)[i].key)
  {
    if es != [] && es[0].key != k && i > 0 {
      InsertKeys(es[1..], k, v, i - 1);
      var key := Insert(es, k, v)[i].key;
      if HasKey(es[1..], key) {
        var j :| 0 <= j < |es| - 1 && es[1..][j].key == key;
        assert es[j + 1].key == key;
      }
    } else if es != [] && i > 0 {
      assert es[i].key == Insert(es, k, v)[i].key;
    }
  }

  /** Inserting into a map with distinct keys keeps the keys distinct. */
  lemma {:induction false} InsertDistinct(es: seq<Entry>, k: Value, v: Value)
    requires DistinctKeys(es)
    ensures DistinctKeys(Insert(es, k, v))
  {
    if es != [] && es[0].key != k {
      var tail := Insert(es[1..], k, v);
      InsertDistinct(es[1..], k, v);
      var r := [es[0]] + tail;
      forall i, j | 0 <= i < j < |r|
        ensures r[i].key != r[j].key
      {
        if i == 0 {
          InsertKeys(es[1..], k, v, j - 1);
          if HasKey(es[1..], r[j].key) {
            var m :| 0 <= m < |es| - 1 && es[1..][m].key == r[j].key;
            assert es[m + 1].key == r[j].key;
          }
        } else {
          assert r[i] == tail[i - 1] && r[j] == tail[j - 1];
        }
      }
    } else if es != [] {
      var r := Insert(es, k, v);
      forall i, j | 0 <= i < j < |r|
        ensures r[i].key != r[j].key
      {
        if i == 0 {
          assert es[j].key != es[0].key;
        } else {
          assert r[i] == es[i] && r[j] == es[j];
        }
      }
    }
  }

  /**
   * Decoding a `HashMap` stream inserts the entries in stream order, so the
   * result maps every key to the value of its last occurrence. The stream may
   * repeat keys; the result never does.
   */
  lemma {:induction false} EntriesInsertInOrder(kt: Ty, vt: Ty, es: seq<Entry>, rest: seq<byte>, acc: seq<Entry>)
    requires forall i :: 0 <= i < |es| ==> HasType(es[i].key, kt) && HasType(es[i].val, vt)
    requires DistinctKeys(acc)
    ensures var r := DecodeEntries(kt, vt, |es|, EncodeEntries(es) + rest, acc);
      && r.Ok? && r.value.rest == rest && r.value.value.HashMap?
      && DistinctKeys(r.value.value.entries)
      && AsMap(r.value.value.entries) == InsertAll(AsMap(acc), es)
    decreases es
  {
    if es == [] {
      assert EncodeEntries(es) + rest == rest;
    } else {
      var e := es[0];
      var acc' := Insert(acc, e.key, e.val);
      InsertAsMap(acc, e.key, e.val);
      InsertDistinct(acc, e.key, e.val);
      EntriesInsertInOrder(kt, vt, es[1..], rest, acc');
      EntriesRead(kt, vt, es, rest, acc);
    }
  }

  /** The value inserted last for a key is the one the map keeps. */
  lemma {:induction false} LastWins(m: map<Value, Value>, es: seq<Entry>, j: nat)
    requires j < |es|
    requires forall i :: j < i < |es| ==> es[i].key != es[j].key
    ensures es[j].key in InsertAll(m, es) && InsertAll(m, es)[es[j].key] == es[j].val
    decreases es
  {
    if j > 0 {
      LastWins(m[es[0].key := es[0].val], es[1..], j - 1);
    } else {
      KeptIfAbsent(m[es[0].key := es[0].val], es[1..], es[0].key);
    }
  }

  /** A binding no later entry touches survives the remaining inserts. */
  lemma {:induction false} KeptIfAbsent(m: map<Value, Value>, es: seq<Entry>, k: Value)
    requires k in m
    requires forall i :: 0 <= i < |es| ==> es[i].key != k
    ensures k in InsertAll(m, es) && InsertAll(m, es)[k] == m[k]
    decreases es
  {
    if es != [] {
      KeptIfAbsent(m[es[0].key := es[0].val], es[1..], k);
    }
  }

  /**
   * A whole `HashMap` stream: count, then entries that may repeat a key.
   * Decoding never fails on it and keeps the last value written for each key.
   */
  lemma HashMapLastWins(kt: Ty, vt: Ty, es: seq<Entry>, rest: seq<byte>, j: nat)
    requires forall i :: 0 <= i < |es| ==> HasType(es[i].key, kt) && HasType(es[i].val, vt)
    requires |es| < USIZE_LIMIT && j < |es|
    requires forall i :: j < i < |es| ==> es[i].key != es[j].key
    ensures var r := Decode(HashMapT(kt, vt), IntBytes(Usize, |es|) + EncodeEntries(es) + rest);
      && r.Ok? && r.value.rest == rest && r.value.value.HashMap?
      && DistinctKeys(r.value.value.entries)
      && es[j].key in AsMap(r.value.value.entries)
      && AsMap(r.value.value.entries)[es[j].key] == es[j].val
  {
    var body := EncodeEntries(es) + rest;
    assert IntBytes(Usize, |es|) + EncodeEntries(es) + rest == IntBytes(Usize, |es|) + body;
    CountRoundTrip(|es|, body);
    assert Decode(HashMapT(kt, vt), IntBytes(Usize, |es|) + body) == DecodeEntries(kt, vt, |es|, body, []);
    EntriesInsertInOrder(kt, vt, es, rest, []);
    assert AsMap([]) == map[];
    LastWins(map[], es, j);
  }
}
