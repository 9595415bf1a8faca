/**
 * The integer codecs generated by `impl_num!` (src/lib.rs:126-153): each
 * integer type is written as exactly `size_of::<T>()` bytes, most significant
 * byte first (`to_be_bytes`), and read back with `from_be_bytes`.
 */
module BigEndian {
  import opened ByteBuffer

  /** 256 to the power `w`: the number of distinct `w`-byte words. */
  function Pow256(w: nat): (p: nat)
    ensures p >= 1
  {
    if w == 0 then 1 else 256 * Pow256(w - 1)
  }

  /** The `w` low-order bytes of `u`, most significant first. */
  function ToBe(u: nat, w: nat): (r: seq<byte>)
    ensures |r| == w
  {
    if w == 0 then [] else ToBe(u / 256, w - 1) + [u % 256]
  }

  /** The unsigned number whose big-endian bytes are `s`. */
  function FromBe(s: seq<byte>): (u: nat)
    ensures u < Pow256(|s|)
  {
    if s == [] then 0
    else
      var hi := FromBe(s[..|s| - 1]);
      assert hi * 256 <= (Pow256(|s| - 1) - 1) * 256;
      hi * 256 + s[|s| - 1]
  }

  /** Reading back the bytes of an unsigned word gives the word. */
  lemma {:induction false} FromBeToBe(u: nat, w: nat)
    requires u < Pow256(w)
    ensures FromBe(ToBe(u, w)) == u
  {
    if w > 0 {
      var s := ToBe(u, w);
      assert s[..w - 1] == ToBe(u / 256, w - 1);
      FromBeToBe(u / 256, w - 1);
    }
  }

  /** Dividing `q * 256 + r` by 256 recovers the quotient and the remainder. */
  lemma DivMod256(q: nat, r: nat)
    requires r < 256
    ensures (q * 256 + r) / 256 == q && (q * 256 + r) % 256 == r
  {
  }

  /** Writing the number that `s` denotes gives `s` back: the encoding is onto. */
  lemma {:induction false} ToBeFromBe(s: seq<byte>)
    ensures ToBe(FromBe(s), |s|) == s
  {
    if s != [] {
      var n := |s|;
      var init := s[..n - 1];
      DivMod256(FromBe(init), s[n - 1]);
      ToBeFromBe(init);
      assert s == init + [s[n - 1]];
    }
  }

  lemma Shift(a: int, p: int, r: int, x: int)
    ensures (a * p + r) * 256 + x == a * (p * 256) + (r * 256 + x)
  {
  }

  /** The first byte carries the highest weight, 256^(n-1): most significant byte first. */
  lemma {:induction false} FromBeFront(s: seq<byte>)
    requires s != []
    ensures FromBe(s) == s[0] * Pow256(|s| - 1) + FromBe(s[1..])
  {
    var n := |s|;
    if n > 1 {
      var init := s[..n - 1];
      FromBeFront(init);
      assert init[1..] == s[1..][..n - 2];
      var a, p, r, x := s[0], Pow256(n - 2), FromBe(init[1..]), s[n - 1];
      assert FromBe(s[1..]) == r * 256 + x;
      assert FromBe(s) == (a * p + r) * 256 + x;
      Shift(a, p, r, x);
    } else {
      assert s[..0] == [] && s[1..] == [];
    }
  }

  /** The fixed-width number types that `impl_num!` covers; `usize`/`isize` are 64-bit. */
  datatype IntKind = U8 | U16 | U32 | U64 | Usize | I8 | I16 | I32 | I64 | Isize | F32 | F64

  /** `size_of::<T>()`. */
  function Width(k: IntKind): nat {
    match k
    case U8 | I8 => 1
    case U16 | I16 => 2
    case U32 | I32 | F32 => 4
    case U64 | Usize | I64 | Isize | F64 => 8
  }

  predicate IsSigned(k: IntKind) {
    k.I8? || k.I16? || k.I32? || k.I64? || k.Isize?
  }

  /** The number of bit patterns of type `k`: 2 to the power `8 * size_of::<T>()`. */
  function Limit(k: IntKind): nat {
    match k
    case U8 | I8 => 0x100
    case U16 | I16 => 0x1_0000
    case U32 | I32 | F32 => 0x1_0000_0000
    case U64 | Usize | I64 | Isize | F64 => 0x1_0000_0000_0000_0000
  }

  /** `Limit(k)` is the number of distinct `size_of::<T>()`-byte words. */
  lemma LimitIsPow(k: IntKind)
    ensures Limit(k) == Pow256(Width(k))
  {
    assert Pow256(1) == 0x100;
    assert Pow256(2) == 0x1_0000;
    assert Pow256(4) == 0x1_0000_0000;
    assert Pow256(8) == 0x1_0000_0000_0000_0000;
  }

  /**
   * The values of type `k`. A float is represented by its bit pattern, an
   * unsigned word of the same width.
   */
  predicate InRange(k: IntKind, n: int) {
    var p := Limit(k);
    if IsSigned(k) then -(p / 2) <= n < p / 2 else 0 <= n < p
  }

  /** The bit pattern of `n`: two's complement for the signed types. */
  function ToBits(k: IntKind, n: int): (u: nat)
    ensures u < Limit(k)
  {
    n % Limit(k)
  }

  /** The value of type `k` whose bit pattern is `u`. */
  function FromBits(k: IntKind, u: nat): (n: int)
    requires u < Limit(k)
    ensures InRange(k, n)
    ensures !IsSigned(k) ==> n == u
  {
    var p := Limit(k);
    if IsSigned(k) && u >= p / 2 then u - p else u
  }

  /** `to_be_bytes`. */
  function IntBytes(k: IntKind, n: int): (r: seq<byte>)
    ensures |r| == Width(k)
  {
    ToBe(ToBits(k, n), Width(k))
  }

  /** `from_be_bytes`. */
  function IntFromBytes(k: IntKind, s: seq<byte>): (n: int)
    requires |s| == Width(k)
    ensures InRange(k, n)
  {
    LimitIsPow(k);
    FromBits(k, FromBe(s))
  }

  /** Euclidean `%` by the word size is two's complement on the values of a signed type. */
  lemma ModWrap(n: int, p: int)
    requires p > 0 && -p <= n < p
    ensures n % p == if n < 0 then n + p else n
  {
    if n < 0 {
      assert (n + p) % p == n % p;
    }
  }

  /** Every value of type `k` survives `from_be_bytes(to_be_bytes(n))`. */
  lemma IntRoundTrip(k: IntKind, n: int)
    requires InRange(k, n)
    ensures IntFromBytes(k, IntBytes(k, n)) == n
  {
    LimitIsPow(k);
    ModWrap(n, Limit(k));
    FromBeToBe(ToBits(k, n), Width(k));
  }

  /** Every `Width(k)`-byte word is the encoding of exactly one value of type `k`. */
  lemma IntBytesOnto(k: IntKind, s: seq<byte>)
    requires |s| == Width(k)
    ensures IntBytes(k, IntFromBytes(k, s)) == s
  {
    LimitIsPow(k);
    var u := FromBe(s);
    ModWrap(FromBits(k, u), Limit(k));
    assert ToBits(k, FromBits(k, u)) == u;
    ToBeFromBe(s);
  }
}
