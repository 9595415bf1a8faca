/**
 * The wire format of the `Serialize`/`Deserialize` implementations in
 * src/lib.rs, as pure functions. A `Ty` stands for the static Rust type that
 * selects a codec; a `Value` is a value of such a type. `Encode` gives the
 * bytes `serialize` writes; `Decode` gives what `deserialize` returns when it
 * reads from the given bytes, together with the bytes it leaves unread.
 */
module Wire {
  import opened Wrappers
  import opened ByteBuffer
  import opened BigEndian
  import opened Utf8

  /**
   * `SerializeError` (src/lib.rs:79-83); the I/O error is kept as its kind
   * only. `?` turns an I/O error `e` into `IOError(e)`.
   */
  datatype SerializeError = IOError(io: IoError) | InvalidData

  /** A `usize` is 8 bytes wide: lengths and counts. */
  const USIZE_LIMIT: nat := 0x1_0000_0000_0000_0000

  /** The `u64` discriminants `Option` decoding recognises. */
  const SOME_TAG: nat := 0
  const NONE_TAG: nat := 1

  /** The static types with a codec in src/lib.rs. */
  datatype Ty =
    | IntT(kind: IntKind)                 // u8 … isize, f32, f64
    | VecT(elem: Ty)                      // Vec<T>
    | StringT                             // String
    | BoxT(boxed: Ty)                     // Box<T>
    | OptionT(payload: Ty)                // Option<T>
    | HashMapT(key: Ty, val: Ty)          // HashMap<K, V>
    | ArrayT(elem: Ty, len: nat)          // [T; N]
    | TupleT(comps: seq<Ty>)              // (A, B, …)

  /**
   * Values of those types. A `String` is held as its UTF-8 bytes; a `HashMap`
   * as its entries in iteration order, which Rust leaves unspecified.
   */
  datatype Value =
    | Num(kind: IntKind, n: int)
    | Vec(items: seq<Value>)
    | Str(utf8: seq<byte>)
    | Box(inner: Value)
    | OptSome(payload: Value)
    | OptNone
    | HashMap(entries: seq<Entry>)
    | Array(items: seq<Value>)
    | Tuple(items: seq<Value>)

  datatype Entry = Entry(key: Value, val: Value)

  /** No two entries share a key, as in any `HashMap`. */
  predicate DistinctKeys(es: seq<Entry>) {
    forall i, j :: 0 <= i < j < |es| ==> es[i].key != es[j].key
  }

  /** `v` is a value of the Rust type `t`. */
  predicate HasType(v: Value, t: Ty)
    decreases v
  {
    match t
    case IntT(k) =>
      v.Num? && v.kind == k && InRange(k, v.n)
    case VecT(e) =>
      v.Vec? && |v.items| < USIZE_LIMIT && forall i :: 0 <= i < |v.items| ==> HasType(v.items[i], e)
    case StringT =>
      v.Str? && |v.utf8| < USIZE_LIMIT && ValidUtf8(v.utf8)
    case BoxT(b) =>
      v.Box? && HasType(v.inner, b)
    case OptionT(p) =>
      v.OptNone? || (v.OptSome? && HasType(v.payload, p))
    case HashMapT(kt, vt) =>
      && v.HashMap? && |v.entries| < USIZE_LIMIT && DistinctKeys(v.entries)
      && forall i :: 0 <= i < |v.entries| ==> HasType(v.entries[i].key, kt) && HasType(v.entries[i].val, vt)
    case ArrayT(e, n) =>
      v.Array? && |v.items| == n && forall i :: 0 <= i < n ==> HasType(v.items[i], e)
    case TupleT(ts) =>
      v.Tuple? && |v.items| == |ts| && forall i :: 0 <= i < |ts| ==> HasType(v.items[i], ts[i])
  }

  // ----- Encoding: what `serialize` writes --------------------------------

  function Encode(v: Value): seq<byte>
    decreases v
  {
    match v
    case Num(k, n) => IntBytes(k, n)
    case Vec(items) => IntBytes(Usize, |items|) + EncodeAll(items)
    case Str(b) => IntBytes(Usize, |b|) + b
    case Box(x) => Encode(x)
    // The Rust encoder reads this discriminant from the value's memory layout, which
    // need not be 0 for `Some` and 1 for `None`; this is what the decoder reads.
    case OptSome(x) => IntBytes(U64, SOME_TAG) + Encode(x)
    case OptNone => IntBytes(U64, NONE_TAG)
    case HashMap(es) => IntBytes(Usize, |es|) + EncodeEntries(es)
    case Array(items) => EncodeAll(items)
    case Tuple(items) => EncodeAll(items)
  }

  /** The items' encodings, concatenated in order. */
  function EncodeAll(items: seq<Value>): seq<byte>
    decreases items
  {
    if items == [] then [] else Encode(items[0]) + EncodeAll(items[1..])
  }

  /** Each entry's key, then its value, entry after entry. */
  function EncodeEntries(es: seq<Entry>): seq<byte>
    decreases es
  {
    if es == [] then [] else EncodeEntry(es[0]) + EncodeEntries(es[1..])
  }

  function EncodeEntry(e: Entry): seq<byte>
    decreases e
  {
    Encode(e.key) + Encode(e.val)
  }

  // ----- Decoding: what `deserialize` returns -----------------------------

  /** A decoded value and the bytes after it. */
  datatype Decoded = Decoded(value: Value, rest: seq<byte>)

  /** A decoded `usize` count and the bytes after it. */
  datatype Count = Count(n: nat, rest: seq<byte>)

  type Outcome<T> = Result<T, SerializeError>

  /** One number: `read_exact` of `size_of::<T>()` bytes, then `from_be_bytes`. */
  function DecodeInt(k: IntKind, s: seq<byte>): (r: Outcome<Decoded>)
    ensures r.Ok? <==> |s| >= Width(k)
    ensures r.Err? ==> r.error == IOError(UnexpectedEof)
    ensures r.Ok? ==> r.value.value.Num? && r.value.value.kind == k && r.value.rest == s[Width(k)..]
  {
    var w := Width(k);
    if |s| < w then Err(IOError(UnexpectedEof))
    else Ok(Decoded(Num(k, IntFromBytes(k, s[..w])), s[w..]))
  }

  /** A `usize` length prefix. */
  function DecodeCount(s: seq<byte>): (r: Outcome<Count>)
    ensures r.Ok? <==> |s| >= 8
    ensures r.Err? ==> r.error == IOError(UnexpectedEof)
    ensures r.Ok? ==> r.value.n < USIZE_LIMIT && r.value.rest == s[8..]
  {
    var d :- DecodeInt(Usize, s);
    Ok(Count(d.value.n, d.rest))
  }

  /** `T::deserialize` for the type `t`, one codec per case. */
  function Decode(t: Ty, s: seq<byte>): (r: Outcome<Decoded>)
    decreases t, 2
  {
    match t
    case IntT(k) => DecodeInt(k, s)
    case VecT(e) => DecodeVec(e, s)
    case StringT => DecodeString(s)
    case BoxT(b) => DecodeBox(b, s)
    case OptionT(p) => DecodeOption(p, s)
    case HashMapT(kt, vt) => DecodeHashMap(kt, vt, s)
    case ArrayT(e, n) => DecodeArray(e, n, s)
    case TupleT(ts) => DecodeComponents(ts, s, [])
  }

  /** `Vec<T>`: a `usize` count, then that many elements. */
  function DecodeVec(e: Ty, s: seq<byte>): (r: Outcome<Decoded>)
    decreases VecT(e), 1
  {
    var c :- DecodeCount(s);
    var d :- DecodeMany(e, c.n, c.rest, []);
    Ok(Decoded(Vec(d.value.items), d.rest))
  }

  /** `String`: a `usize` byte count, then that many bytes, which must be UTF-8. */
  function DecodeString(s: seq<byte>): (r: Outcome<Decoded>)
  {
    var c :- DecodeCount(s);
    if |c.rest| < c.n then Err(IOError(UnexpectedEof))
    else if ValidUtf8(c.rest[..c.n]) then Ok(Decoded(Str(c.rest[..c.n]), c.rest[c.n..]))
    else Err(InvalidData)
  }

  /** `Box<T>`: the boxed value, with nothing around it. */
  function DecodeBox(b: Ty, s: seq<byte>): (r: Outcome<Decoded>)
    decreases BoxT(b), 1
  {
    var d :- Decode(b, s);
    Ok(Decoded(Box(d.value), d.rest))
  }

  /** `Option<T>`: a `u64` discriminant, then the payload when it is `Some`. */
  function DecodeOption(p: Ty, s: seq<byte>): (r: Outcome<Decoded>)
    decreases OptionT(p), 1
  {
    var tag :- DecodeInt(U64, s);
    if tag.value.n == SOME_TAG then
      var d :- Decode(p, tag.rest);
      Ok(Decoded(OptSome(d.value), d.rest))
    else if tag.value.n == NONE_TAG then Ok(Decoded(OptNone, tag.rest))
    else Err(InvalidData)
  }

  /** `HashMap<K, V>`: a `usize` count, then that many key/value pairs. */
  function DecodeHashMap(kt: Ty, vt: Ty, s: seq<byte>): (r: Outcome<Decoded>)
    decreases HashMapT(kt, vt), 1
  {
    var c :- DecodeCount(s);
    DecodeEntries(kt, vt, c.n, c.rest, [])
  }

  /** `[T; N]`: exactly `n` elements, with no count before them. */
  function DecodeArray(e: Ty, n: nat, s: seq<byte>): (r: Outcome<Decoded>)
    decreases ArrayT(e, n), 1
  {
    var d :- DecodeMany(e, n, s, []);
    Ok(Decoded(Array(d.value.items), d.rest))
  }

  /**
   * `n` more elements of type `e` after the ones already in `acc`, in stream
   * order, stopping at the first failure. Returns them all as `Vec(acc + …)`.
   */
  function DecodeMany(e: Ty, n: nat, s: seq<byte>, acc: seq<Value>): (r: Outcome<Decoded>)
    ensures r.Ok? ==> r.value.value.Vec? && |r.value.value.items| == |acc| + n
    decreases e, 3, n
  {
    if n == 0 then Ok(Decoded(Vec(acc), s))
    else
      var d :- Decode(e, s);
      DecodeMany(e, n - 1, d.rest, acc + [d.value])
  }

  /** `k` is the key of some entry of `es`. */
  predicate HasKey(es: seq<Entry>, k: Value) {
    exists j :: 0 <= j < |es| && es[j].key == k
  }

  /**
   * `HashMap::insert`: replaces the value of an existing key, or adds the
   * entry at the end when the key is new.
   */
  function Insert(es: seq<Entry>, k: Value, v: Value): (r: seq<Entry>)
    ensures |r| == if HasKey(es, k) then |es| else |es| + 1
    ensures !HasKey(es, k) ==> r == es + [Entry(k, v)]
  {
    if es == [] then [Entry(k, v)]
    else if es[0].key == k then [Entry(k, v)] + es[1..]
    else
      assert HasKey(es, k) <==> HasKey(es[1..], k) by {
        if HasKey(es, k) {
          var j :| 0 <= j < |es| && es[j].key == k;
          assert es[1..][j - 1].key == k;
        }
        if HasKey(es[1..], k) {
          var j :| 0 <= j < |es| - 1 && es[1..][j].key == k;
          assert es[j + 1].key == k;
        }
      }
      [es[0]] + Insert(es[1..], k, v)
  }

  /** The map a list of entries stands for; the first entry for a key counts. */
  function AsMap(es: seq<Entry>): map<Value, Value> {
    if es == [] then map[] else AsMap(es[1..])[es[0].key := es[0].val]
  }

  /**
   * `n` more key/value pairs, each inserted into `acc` as it is read; fails
   * at the first key or value that cannot be read.
   */
  function DecodeEntries(kt: Ty, vt: Ty, n: nat, s: seq<byte>, acc: seq<Entry>): (r: Outcome<Decoded>)
    ensures r.Ok? ==> r.value.value.HashMap?
    decreases HashMapT(kt, vt), 0, n
  {
    if n == 0 then Ok(Decoded(HashMap(acc), s))
    else
      var k :- Decode(kt, s);
      var v :- Decode(vt, k.rest);
      DecodeEntries(kt, vt, n - 1, v.rest, Insert(acc, k.value, v.value))
  }

  /** The remaining components `ts`, in declaration order, after those in `acc`. */
  function DecodeComponents(ts: seq<Ty>, s: seq<byte>, acc: seq<Value>): (r: Outcome<Decoded>)
    ensures r.Ok? ==> r.value.value.Tuple? && |r.value.value.items| == |acc| + |ts|
    decreases ts
  {
    if ts == [] then Ok(Decoded(Tuple(acc), s))
    else
      var d :- Decode(ts[0], s);
      DecodeComponents(ts[1..], d.rest, acc + [d.value])
  }
}
