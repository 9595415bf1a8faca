/**
 * The `Serialize` and `Deserialize` implementations of src/lib.rs as they run
 * against a `Bytes` buffer: serializing writes to the end of the buffer,
 * deserializing reads from its cursor. Each method is proved to do exactly
 * what the pure wire format in module `Wire` says.
 */
module Codec {
  import opened Wrappers
  import opened ByteBuffer
  import opened BigEndian
  import opened Utf8
  import opened Wire
  import opened RoundTripLemmas
  import opened Truncation
  import opened WireProperties

  // ----- Facts about the encodings the write loops build up -----------------

  /** Encoding a list of values one after another: the encodings concatenate. */
  lemma {:induction false} EncodeAllAppend(a: seq<Value>, b: seq<Value>)
    ensures EncodeAll(a + b) == EncodeAll(a) + EncodeAll(b)
  {
    if a != [] {
      assert (a + b)[1..] == a[1..] + b;
      EncodeAllAppend(a[1..], b);
    } else {
      assert a + b == b;
    }
  }

  /** Writing one more element appends exactly its encoding. */
  lemma EncodeAllSnoc(items: seq<Value>, i: nat)
    requires i < |items|
    ensures EncodeAll(items[..i + 1]) == EncodeAll(items[..i]) + Encode(items[i])
  {
    assert items[..i + 1] == items[..i] + [items[i]];
    EncodeAllAppend(items[..i], [items[i]]);
    assert EncodeAll([items[i]]) == Encode(items[i]) + EncodeAll([]);
  }

  /** Entry lists encode entry after entry. */
  lemma {:induction false} EncodeEntriesAppend(a: seq<Entry>, b: seq<Entry>)
    ensures EncodeEntries(a + b) == EncodeEntries(a) + EncodeEntries(b)
  {
    if a != [] {
      assert (a + b)[1..] == a[1..] + b;
      EncodeEntriesAppend(a[1..], b);
    } else {
      assert a + b == b;
    }
  }

  /** Writing one more entry appends its key's encoding, then its value's. */
  lemma EncodeEntriesSnoc(es: seq<Entry>, i: nat)
    requires i < |es|
    ensures EncodeEntries(es[..i + 1]) == EncodeEntries(es[..i]) + Encode(es[i].key) + Encode(es[i].val)
  {
    assert es[..i + 1] == es[..i] + [es[i]];
    EncodeEntriesAppend(es[..i], [es[i]]);
    assert EncodeEntries([es[i]]) == EncodeEntry(es[i]) + EncodeEntries([]);
  }

  // ----- serialize ---------------------------------------------------------

  /**
   * `Serialize::serialize` into a `Bytes` buffer: appends the encoding of `v`
   * and leaves the cursor where it was. Writing to the buffer never fails.
   */
  method Serialize(v: Value, buf: Bytes) returns (r: Result<(), SerializeError>)
    requires buf.Valid()
    modifies buf
    ensures buf.Valid() && r.Ok?
    ensures buf.data == old(buf.data) + Encode(v) && buf.current == old(buf.current)
    decreases v, 1
  {
    r := Ok(());
    match v
    case Num(k, n) =>
      // `write_all` of `to_be_bytes`: one `write` takes all of it.
      var _ := buf.Write(IntBytes(k, n));
    case Vec(items) =>
      var _ := buf.Write(IntBytes(Usize, |items|));
      r := SerializeItems(v, items, buf);
      Associate(old(buf.data), IntBytes(Usize, |items|), EncodeAll(items));
    case Str(b) =>
      var _ := buf.Write(IntBytes(Usize, |b|));
      r := SerializeBytes(b, buf);
      Associate(old(buf.data), IntBytes(Usize, |b|), b);
    case Box(x) =>
      r := Serialize(x, buf);
    case OptSome(x) =>
      var _ := buf.Write(IntBytes(U64, SOME_TAG));
      r := Serialize(x, buf);
      Associate(old(buf.data), IntBytes(U64, SOME_TAG), Encode(x));
    case OptNone =>
      var _ := buf.Write(IntBytes(U64, NONE_TAG));
    case HashMap(es) =>
      var _ := buf.Write(IntBytes(Usize, |es|));
      r := SerializeEntries(v, es, buf);
      Associate(old(buf.data), IntBytes(Usize, |es|), EncodeEntries(es));
    case Array(items) =>
      r := SerializeItems(v, items, buf);
    case Tuple(items) =>
      r := SerializeItems(v, items, buf);
  }

  /**
   * Regrouping appended bytes. Stated on its own so that the methods below
   * use it without asking the solver to rediscover it in their larger context.
   */
  lemma Associate(a: seq<byte>, b: seq<byte>, c: seq<byte>)
    ensures a + b + c == a + (b + c)
  {
  }

  /** The bytes of a `String`, each written as a `u8`. */
  method SerializeBytes(b: seq<byte>, buf: Bytes) returns (r: Result<(), SerializeError>)
    requires buf.Valid()
    modifies buf
    ensures buf.Valid() && r.Ok?
    ensures buf.data == old(buf.data) + b && buf.current == old(buf.current)
  {
    for i := 0 to |b|
      invariant buf.Valid() && buf.current == old(buf.current)
      invariant buf.data == old(buf.data) + b[..i]
    {
      assert b[..i + 1] == b[..i] + [b[i]];
      var _ := buf.Write(IntBytes(U8, b[i]));
      ByteIsItself(b[i]);
    }
    assert b[..|b|] == b;
    return Ok(());
  }

  /** The byte of a `u8` is the `u8` itself. */
  lemma ByteIsItself(b: byte)
    ensures IntBytes(U8, b) == [b]
  {
    assert Pow256(1) == 256;
    assert ToBe(b, 1) == ToBe(b / 256, 0) + [b % 256];
  }

  /** The element loop shared by `Vec`, `[T; N]` and tuples: each item in order. */
  method SerializeItems(ghost v: Value, items: seq<Value>, buf: Bytes) returns (r: Result<(), SerializeError>)
    requires (v.Vec? || v.Array? || v.Tuple?) && items == v.items
    requires buf.Valid()
    modifies buf
    ensures buf.Valid() && r.Ok?
    ensures buf.data == old(buf.data) + EncodeAll(items) && buf.current == old(buf.current)
    decreases v, 0
  {
    for i := 0 to |items|
      invariant buf.Valid() && buf.current == old(buf.current)
      invariant buf.data == old(buf.data) + EncodeAll(items[..i])
    {
      EncodeAllSnoc(items, i);
      var _ := Serialize(items[i], buf);
      Associate(old(buf.data), EncodeAll(items[..i]), Encode(items[i]));
    }
    assert items[..|items|] == items;
    return Ok(());
  }

  /** The `HashMap` loop: each entry's key, then its value, in iteration order. */
  method SerializeEntries(ghost v: Value, es: seq<Entry>, buf: Bytes) returns (r: Result<(), SerializeError>)
    requires v.HashMap? && es == v.entries
    requires buf.Valid()
    modifies buf
    ensures buf.Valid() && r.Ok?
    ensures buf.data == old(buf.data) + EncodeEntries(es) && buf.current == old(buf.current)
    decreases v, 0
  {
    for i := 0 to |es|
      invariant buf.Valid() && buf.current == old(buf.current)
      invariant buf.data == old(buf.data) + EncodeEntries(es[..i])
    {
      EncodeEntriesSnoc(es, i);
      assert es[i] in es;
      var _ := Serialize(es[i].key, buf);
      var _ := Serialize(es[i].val, buf);
      Associate(old(buf.data), EncodeEntries(es[..i]) + Encode(es[i].key), Encode(es[i].val));
      Associate(old(buf.data), EncodeEntries(es[..i]), Encode(es[i].key));
    }
    assert es[..|es|] == es;
    return Ok(());
  }

  // ----- deserialize -------------------------------------------------------

  /**
   * The outcome `r` of a read, with `rest` left unread, is the one the wire
   * format prescribes: the decoded value and exactly the bytes after it, or
   * the same error.
   */
  ghost predicate Follows(r: Outcome<Value>, spec: Outcome<Decoded>, rest: seq<byte>) {
    match spec
    case Ok(d) => r == Ok(d.value) && rest == d.rest
    case Err(e) => r == Err(e)
  }

  /** `from_be_bytes` after `read_exact` of `size_of::<T>()` bytes. */
  method ReadInt(k: IntKind, buf: Bytes) returns (r: Outcome<Value>)
    requires buf.Valid()
    modifies buf
    ensures buf.Valid() && buf.data == old(buf.data)
    ensures old(buf.current) <= buf.current && (r.Err? ==> buf.current == |buf.data|)
    ensures Follows(r, DecodeInt(k, old(buf.Remaining())), buf.Remaining())
  {
    ghost var s := buf.Remaining();
    var bytes := new byte[Width(k)];
    var e := buf.ReadExact(bytes);
    if e.Err? {
      return Err(IOError(e.error));
    }
    assert bytes[..] == buf.data[old(buf.current)..buf.current];
    assert bytes[..] == s[..Width(k)];
    return Ok(Num(k, IntFromBytes(k, bytes[..])));
  }

  /** A `usize` count. */
  method ReadCount(buf: Bytes) returns (r: Outcome<nat>)
    requires buf.Valid()
    modifies buf
    ensures buf.Valid() && buf.data == old(buf.data)
    ensures old(buf.current) <= buf.current && (r.Err? ==> buf.current == |buf.data|)
    ensures match DecodeCount(old(buf.Remaining()))
      case Ok(c) => r == Ok(c.n) && buf.Remaining() == c.rest
      case Err(e) => r == Err(e)
  {
    var x := ReadInt(Usize, buf);
    if x.Err? {
      return Err(x.error);
    }
    return Ok(x.value.n);
  }

  /**
   * `Deserialize::deserialize` from a `Bytes` buffer: reads from the cursor
   * and returns what `Decode` gives for the unread bytes, leaving the cursor
   * just past the value. The data is never changed.
   */
  method Deserialize(t: Ty, buf: Bytes) returns (r: Outcome<Value>)
    requires buf.Valid()
    modifies buf
    ensures buf.Valid() && buf.data == old(buf.data)
    ensures old(buf.current) <= buf.current && (r == Err(IOError(UnexpectedEof)) ==> buf.current == |buf.data|)
    ensures Follows(r, Decode(t, old(buf.Remaining())), buf.Remaining())
    decreases t, 2
  {
    match t
    case IntT(k) =>
      r := ReadInt(k, buf);
    case VecT(e) =>
      r := DeserializeVec(e, buf);
    case StringT =>
      r := DeserializeString(buf);
    case BoxT(b) =>
      var x := Deserialize(b, buf);
      if x.Err? {
        return Err(x.error);
      }
      r := Ok(Box(x.value));
    case OptionT(p) =>
      r := DeserializeOption(p, buf);
    case HashMapT(kt, vt) =>
      r := DeserializeHashMap(kt, vt, buf);
    case ArrayT(e, n) =>
      r := DeserializeArray(e, n, buf);
    case TupleT(ts) =>
      r := DeserializeTuple(ts, buf);
  }

  /** `Vec<T>`: a count, then that many elements. */
  method DeserializeVec(e: Ty, buf: Bytes) returns (r: Outcome<Value>)
    requires buf.Valid()
    modifies buf
    ensures buf.Valid() && buf.data == old(buf.data)
    ensures old(buf.current) <= buf.current && (r == Err(IOError(UnexpectedEof)) ==> buf.current == |buf.data|)
    ensures Follows(r, Decode(VecT(e), old(buf.Remaining())), buf.Remaining())
    decreases VecT(e), 1
  {
    var len := ReadCount(buf);
    if len.Err? {
      return Err(len.error);
    }
    var items := ReadElements(e, len.value, buf);
    if items.Err? {
      return Err(items.error);
    }
    return Ok(Vec(items.value));
  }

  /** The `Vec<T>` loop: `n` elements pushed in order; the first failure ends it. */
  method ReadElements(e: Ty, n: nat, buf: Bytes) returns (r: Outcome<seq<Value>>)
    requires buf.Valid()
    modifies buf
    ensures buf.Valid() && buf.data == old(buf.data)
    ensures old(buf.current) <= buf.current && (r == Err(IOError(UnexpectedEof)) ==> buf.current == |buf.data|)
    ensures match DecodeMany(e, n, old(buf.Remaining()), [])
      case Ok(d) => r == Ok(d.value.items) && buf.Remaining() == d.rest
      case Err(x) => r == Err(x)
    decreases e, 3, 1
  {
    ghost var s := buf.Remaining();
    var acc := [];
    for i := 0 to n
      invariant buf.Valid() && buf.data == old(buf.data) && old(buf.current) <= buf.current
      invariant DecodeMany(e, n, s, []) == DecodeMany(e, n - i, buf.Remaining(), acc)
    {
      var x := ReadNext(e, n - i, acc, buf);
      if x.Err? {
        assert DecodeMany(e, n, s, []) == Err(x.error);
        return Err(x.error);
      }
      acc := acc + [x.value];
    }
    assert DecodeMany(e, n, s, []) == Ok(Decoded(Vec(acc), buf.Remaining()));
    return Ok(acc);
  }

  /** One turn of an element loop: the next `T::deserialize`, and what is left of the loop after it. */
  method ReadNext(e: Ty, n: nat, acc: seq<Value>, buf: Bytes) returns (r: Outcome<Value>)
    requires buf.Valid() && n > 0
    modifies buf
    ensures buf.Valid() && buf.data == old(buf.data)
    ensures old(buf.current) <= buf.current && (r == Err(IOError(UnexpectedEof)) ==> buf.current == |buf.data|)
    ensures match r
      case Ok(x) => DecodeMany(e, n, old(buf.Remaining()), acc) == DecodeMany(e, n - 1, buf.Remaining(), acc + [x])
      case Err(x) => DecodeMany(e, n, old(buf.Remaining()), acc) == Err(x)
    decreases e, 3, 0
  {
    ghost var before := buf.Remaining();
    r := Deserialize(e, buf);
    if r.Err? {
      ManyStops(e, n, before, acc);
    } else {
      DecodeManyStep(e, n, before, acc, Decoded(r.value, buf.Remaining()));
    }
  }

  /** `String`: a count, `read_exact` of that many bytes, then the UTF-8 check. */
  method DeserializeString(buf: Bytes) returns (r: Outcome<Value>)
    requires buf.Valid()
    modifies buf
    ensures buf.Valid() && buf.data == old(buf.data)
    ensures old(buf.current) <= buf.current && (r == Err(IOError(UnexpectedEof)) ==> buf.current == |buf.data|)
    ensures Follows(r, Decode(StringT, old(buf.Remaining())), buf.Remaining())
  {
    ghost var s := buf.Remaining();
    var len := ReadCount(buf);
    if len.Err? {
      return Err(len.error);
    }
    ghost var body := buf.Remaining();
    var bytes := new byte[len.value];
    var e := buf.ReadExact(bytes);
    if e.Err? {
      return Err(IOError(e.error));
    }
    assert bytes[..] == body[..len.value];
    if ValidUtf8(bytes[..]) {
      return Ok(Str(bytes[..]));
    }
    return Err(InvalidData);
  }

  /** `Option<T>`: a `u64` discriminant, 0 followed by the payload or 1 alone. */
  method DeserializeOption(p: Ty, buf: Bytes) returns (r: Outcome<Value>)
    requires buf.Valid()
    modifies buf
    ensures buf.Valid() && buf.data == old(buf.data)
    ensures old(buf.current) <= buf.current && (r == Err(IOError(UnexpectedEof)) ==> buf.current == |buf.data|)
    ensures Follows(r, Decode(OptionT(p), old(buf.Remaining())), buf.Remaining())
    decreases OptionT(p), 1
  {
    var discriminant := ReadInt(U64, buf);
    if discriminant.Err? {
      return Err(discriminant.error);
    }
    if discriminant.value.n == SOME_TAG {
      var f0 := Deserialize(p, buf);
      if f0.Err? {
        return Err(f0.error);
      }
      return Ok(OptSome(f0.value));
    } else if discriminant.value.n == NONE_TAG {
      return Ok(OptNone);
    }
    return Err(InvalidData);
  }

  /** `HashMap<K, V>`: a count, then that many key/value pairs. */
  method DeserializeHashMap(kt: Ty, vt: Ty, buf: Bytes) returns (r: Outcome<Value>)
    requires buf.Valid()
    modifies buf
    ensures buf.Valid() && buf.data == old(buf.data)
    ensures old(buf.current) <= buf.current && (r == Err(IOError(UnexpectedEof)) ==> buf.current == |buf.data|)
    ensures Follows(r, Decode(HashMapT(kt, vt), old(buf.Remaining())), buf.Remaining())
    decreases HashMapT(kt, vt), 1
  {
    ghost var s := buf.Remaining();
    var len := ReadCount(buf);
    if len.Err? {
      return Err(len.error);
    }
    HashMapAfterCount(kt, vt, s);
    r := ReadEntries(kt, vt, len.value, buf);
  }

  lemma HashMapAfterCount(kt: Ty, vt: Ty, s: seq<byte>)
    requires DecodeCount(s).Ok?
    ensures Decode(HashMapT(kt, vt), s) == DecodeEntries(kt, vt, DecodeCount(s).value.n, DecodeCount(s).value.rest, [])
  {
  }

  /** The `HashMap` loop: key, then value, inserted as they are read; the first failure ends it. */
  method ReadEntries(kt: Ty, vt: Ty, n: nat, buf: Bytes) returns (r: Outcome<Value>)
    requires buf.Valid()
    modifies buf
    ensures buf.Valid() && buf.data == old(buf.data)
    ensures old(buf.current) <= buf.current && (r == Err(IOError(UnexpectedEof)) ==> buf.current == |buf.data|)
    ensures Follows(r, DecodeEntries(kt, vt, n, old(buf.Remaining()), []), buf.Remaining())
    decreases HashMapT(kt, vt), 0, 1
  {
    ghost var s := buf.Remaining();
    var entries := [];
    for i := 0 to n
      invariant buf.Valid() && buf.data == old(buf.data) && old(buf.current) <= buf.current
      invariant DecodeEntries(kt, vt, n, s, []) == DecodeEntries(kt, vt, n - i, buf.Remaining(), entries)
    {
      var next := ReadEntry(kt, vt, n - i, entries, buf);
      if next.Err? {
        assert DecodeEntries(kt, vt, n, s, []) == Err(next.error);
        return Err(next.error);
      }
      entries := next.value;
    }
    assert DecodeEntries(kt, vt, n, s, []) == Ok(Decoded(HashMap(entries), buf.Remaining()));
    return Ok(HashMap(entries));
  }

  /**
   * One turn of the map loop: the next key and value, each read with its own
   * `deserialize`, inserted into the map read so far.
   */
  method ReadEntry(kt: Ty, vt: Ty, n: nat, entries: seq<Entry>, buf: Bytes) returns (r: Outcome<seq<Entry>>)
    requires buf.Valid() && n > 0
    modifies buf
    ensures buf.Valid() && buf.data == old(buf.data)
    ensures old(buf.current) <= buf.current && (r == Err(IOError(UnexpectedEof)) ==> buf.current == |buf.data|)
    ensures match r
      case Ok(es) => DecodeEntries(kt, vt, n, old(buf.Remaining()), entries) == DecodeEntries(kt, vt, n - 1, buf.Remaining(), es)
      case Err(x) => DecodeEntries(kt, vt, n, old(buf.Remaining()), entries) == Err(x)
    decreases HashMapT(kt, vt), 0, 0
  {
    ghost var before := buf.Remaining();
    var key := Deserialize(kt, buf);
    if key.Err? {
      KeyStops(kt, vt, n, before, entries);
      return Err(key.error);
    }
    ghost var mid := buf.Remaining();
    var val := Deserialize(vt, buf);
    if val.Err? {
      ValueStops(kt, vt, n, before, entries);
      return Err(val.error);
    }
    DecodeEntriesStep(kt, vt, n, before, entries, Decoded(key.value, mid), Decoded(val.value, buf.Remaining()));
    return Ok(Insert(entries, key.value, val.value));
  }

  /** `[T; N]`: N elements, no count in front. */
  method DeserializeArray(e: Ty, n: nat, buf: Bytes) returns (r: Outcome<Value>)
    requires buf.Valid()
    modifies buf
    ensures buf.Valid() && buf.data == old(buf.data)
    ensures old(buf.current) <= buf.current && (r == Err(IOError(UnexpectedEof)) ==> buf.current == |buf.data|)
    ensures Follows(r, Decode(ArrayT(e, n), old(buf.Remaining())), buf.Remaining())
    decreases ArrayT(e, n), 1
  {
    ghost var s := buf.Remaining();
    var items := ReadArray(e, n, buf);
    ArrayFromMany(e, n, s);
    if items.Err? {
      return Err(items.error);
    }
    return Ok(Array(items.value));
  }

  /**
   * The `[T; N]` loop: a fresh array of N slots, filled in place slot by slot;
   * the first failure ends it.
   */
  method ReadArray(e: Ty, n: nat, buf: Bytes) returns (r: Outcome<seq<Value>>)
    requires buf.Valid()
    modifies buf
    ensures buf.Valid() && buf.data == old(buf.data)
    ensures old(buf.current) <= buf.current && (r == Err(IOError(UnexpectedEof)) ==> buf.current == |buf.data|)
    ensures match DecodeMany(e, n, old(buf.Remaining()), [])
      case Ok(d) => r == Ok(d.value.items) && buf.Remaining() == d.rest
      case Err(x) => r == Err(x)
    decreases e, 3, 1
  {
    ghost var s := buf.Remaining();
    var arr := new Value[n];
    ghost var done: seq<Value> := [];
    for i := 0 to n
      invariant buf.Valid() && buf.data == old(buf.data) && old(buf.current) <= buf.current
      invariant arr[..i] == done
      invariant DecodeMany(e, n, s, []) == DecodeMany(e, n - i, buf.Remaining(), done)
    {
      var x := ReadNext(e, n - i, arr[..i], buf);
      if x.Err? {
        assert DecodeMany(e, n, s, []) == Err(x.error);
        return Err(x.error);
      }
      arr[i] := x.value;
      done := done + [x.value];
    }
    assert DecodeMany(e, n, s, []) == Ok(Decoded(Vec(done), buf.Remaining()));
    assert arr[..] == done;
    return Ok(arr[..]);
  }

  /** An array is its elements, with no count in front. */
  lemma ArrayFromMany(e: Ty, n: nat, s: seq<byte>)
    ensures var m := DecodeMany(e, n, s, []);
      && (m.Err? ==> Decode(ArrayT(e, n), s) == Err(m.error))
      && (m.Ok? ==> Decode(ArrayT(e, n), s) == Ok(Decoded(Array(m.value.value.items), m.value.rest)))
  {
  }

  /** A tuple: each component with its own type, in declaration order; no prefix. */
  method DeserializeTuple(ts: seq<Ty>, buf: Bytes) returns (r: Outcome<Value>)
    requires buf.Valid()
    modifies buf
    ensures buf.Valid() && buf.data == old(buf.data)
    ensures old(buf.current) <= buf.current && (r == Err(IOError(UnexpectedEof)) ==> buf.current == |buf.data|)
    ensures Follows(r, Decode(TupleT(ts), old(buf.Remaining())), buf.Remaining())
    decreases TupleT(ts), 1
  {
    ghost var s := buf.Remaining();
    var items := [];
    for j := 0 to |ts|
      invariant buf.Valid() && buf.data == old(buf.data) && old(buf.current) <= buf.current
      invariant DecodeComponents(ts, s, []) == DecodeComponents(ts[j..], buf.Remaining(), items)
    {
      ghost var before := buf.Remaining();
      var x := Deserialize(ts[j], buf);
      if x.Err? {
        return Err(x.error);
      }
      assert ts[j..][1..] == ts[j + 1..];
      DecodeComponentsStep(ts[j..], before, items, Decoded(x.value, buf.Remaining()));
      items := items + [x.value];
    }
    return Ok(Tuple(items));
  }

  // ----- Writing, then reading -------------------------------------------------

  /**
   * `write_serialized` of two values into a new `Bytes`, then
   * `read_serialized` twice: the same values come back, in the order they
   * were written, and nothing is left unread.
   */
  method WriteThenRead(ta: Ty, a: Value, tb: Ty, b: Value) returns (ra: Outcome<Value>, rb: Outcome<Value>, left: nat)
    requires HasType(a, ta) && HasType(b, tb)
    ensures ra == Ok(a) && rb == Ok(b) && left == 0
  {
    var buf := new Bytes();
    var _ := Serialize(a, buf);
    var _ := Serialize(b, buf);
    assert Encode(a) + [] == Encode(a) && [] + Encode(a) == Encode(a);
    assert Encode(a) + Encode(b) + [] == Encode(a) + Encode(b);
    assert Encode(b) + [] == Encode(b) && [] + Encode(b) == Encode(b);
    assert buf.Remaining() == buf.data[0..] == buf.data == Encode(a) + Encode(b) + [];
    Sequential(ta, a, tb, b, []);
    ra := Deserialize(ta, buf);
    rb := Deserialize(tb, buf);
    left := buf.Len() - buf.current;
  }
}
