/** Shared vocabulary: field elements, hashers, outcomes and powers of two. */
module Basics {

  /** A field element, named by its canonical representative. Only zero, the order and
      the hashes matter to the trees, so no modulus is fixed here. */
  type Fr = nat

  /** The pair hash of the trees: uninterpreted except that it copes with zero nodes. */
  type TreeHash = h: (Fr, Fr) -> Fr | h(0, 0) == 0 witness (a: Fr, b: Fr) => 0

  /** The three-input hash of an indexed leaf: wholly uninterpreted. */
  type LeafHash = (Fr, Fr, Fr) -> Fr

  datatype Option<+T> = None | Some(value: T)

  /** The errors the trees return. `Panicked` stands for a Rust panic. */
  datatype TreeError =
    | TreeIsFull
    | IncorrectBatchSize
    | NoLeaves
    | LeafExists
    | InvalidProof
    | ItemNotFound
    | InvalidIndex
    | HeightTooLarge
    | Panicked
    | Failed

  datatype Result<+T> = Ok(value: T) | Err(error: TreeError)

  const U64_BITS: nat := 64
  const I64_MAX: nat := 0x7FFF_FFFF_FFFF_FFFF
  const U32_RANGE: nat := 0x1_0000_0000
  const U64_RANGE: nat := 0x1_0000_0000_0000_0000

  function Pow2(n: nat): (r: nat)
    ensures r >= 1
  {
    if n == 0 then 1 else 2 * Pow2(n - 1)
  }

  lemma {:induction false} Pow2Mono(a: nat, b: nat)
    requires a <= b
    ensures Pow2(a) <= Pow2(b)
  {
    if a < b { Pow2Mono(a, b - 1); }
  }

  /** `k << l`: where the `k`-th block of `2^l` leaves starts. */
  function Shl(k: nat, l: nat): nat {
    if l == 0 then k else 2 * Shl(k, l - 1)
  }

  lemma {:induction false} ShlAdd(a: nat, b: nat, l: nat)
    ensures Shl(a + b, l) == Shl(a, l) + Shl(b, l)
  {
    if l > 0 { ShlAdd(a, b, l - 1); }
  }

  lemma {:induction false} ShlOne(l: nat)
    ensures Shl(1, l) == Pow2(l) && Shl(0, l) == 0
  {
    if l > 0 { ShlOne(l - 1); }
  }

  lemma {:induction false} ShlIsProduct(k: nat, l: nat)
    ensures Shl(k, l) == k * Pow2(l)
  {
    if l > 0 {
      ShlIsProduct(k, l - 1);
      assert k * (2 * Pow2(l - 1)) == 2 * (k * Pow2(l - 1));
    }
  }

  /** Block `k` of length `2^l` is made of blocks `2k` and `2k + 1` of half that length. */
  lemma {:induction false} HalfBlocks(k: nat, l: nat)
    requires l > 0
    ensures Shl(2 * k, l - 1) == Shl(k, l)
    ensures Shl(2 * k + 1, l - 1) == Shl(k, l) + Pow2(l - 1)
  {
    ShlAdd(k, k, l - 1);
    ShlAdd(2 * k, 1, l - 1);
    ShlOne(l - 1);
  }

  lemma {:induction false} NextBlock(k: nat, l: nat)
    ensures Shl(k + 1, l) == Shl(k, l) + Pow2(l)
  {
    ShlAdd(k, 1, l);
    ShlOne(l);
  }

  lemma {:induction false} ShlMono(a: nat, b: nat, l: nat)
    requires a <= b
    ensures Shl(a, l) <= Shl(b, l)
  {
    ShlAdd(a, b - a, l);
  }

  lemma {:induction false} ShlPow2(d: nat, l: nat)
    ensures Shl(Pow2(d), l) == Pow2(d + l)
  {
    if l > 0 { ShlPow2(d, l - 1); }
  }

  /** A block that starts inside the tree ends inside it. */
  lemma {:induction false} LastBlock(d: nat, k: nat, l: nat)
    requires k < Pow2(d)
    ensures Shl(k, l) + Pow2(l) <= Pow2(d + l)
  {
    NextBlock(k, l);
    ShlMono(k + 1, Pow2(d), l);
    ShlPow2(d, l);
  }

  /** `k >> l`. */
  function Shr(k: nat, l: nat): nat {
    if l == 0 then k else Shr(k, l - 1) / 2
  }

  lemma {:induction false} ShrBounds(k: nat, l: nat)
    ensures Shl(Shr(k, l), l) <= k < Shl(Shr(k, l) + 1, l)
  {
    if l > 0 {
      ShrBounds(k, l - 1);
      var s := Shr(k, l - 1);
      HalfBlocks(s / 2, l);
      HalfBlocks(s / 2 + 1, l);
      ShlMono(2 * (s / 2), s, l - 1);
      ShlMono(s + 1, 2 * (s / 2 + 1), l - 1);
    }
  }

  lemma {:induction false} ShrStaysZero(n: nat, a: nat, b: nat)
    requires a <= b && Shr(n, a) == 0
    ensures Shr(n, b) == 0
  {
    if a < b { ShrStaysZero(n, a, b - 1); }
  }

  lemma {:induction false} ShrOfSmall(k: nat, l: nat)
    requires k < Pow2(l)
    ensures Shr(k, l) == 0
  {
    ShrBounds(k, l);
    ShlOne(l);
    if Shr(k, l) >= 1 { ShlMono(1, Shr(k, l), l); }
  }

  lemma {:induction false} Pow2Fits(n: nat)
    requires n < U64_BITS
    ensures 2 * Pow2(n) <= U64_RANGE
  {
    Pow2Mono(n, 63);
    assert Pow2(8) == 0x100;
    ShlPow2(8, 8);
    ShlIsProduct(0x100, 8);
    ShlPow2(16, 16);
    ShlIsProduct(0x1_0000, 16);
    ShlPow2(32, 32);
    ShlIsProduct(0x1_0000_0000, 32);
    assert Pow2(64) == 2 * Pow2(63);
  }

  /** The floor of the binary logarithm. */
  function Log2(n: nat): nat
    requires n > 0
  {
    if n == 1 then 0 else 1 + Log2(n / 2)
  }

  // ----- Division

  lemma {:induction false} EuclidSplit(n: int, d: int)
    requires d > 0
    ensures n == (n / d) * d + n % d
  {
  }

  lemma {:induction false} ProductSum(p: int, q: int, d: int)
    ensures (p + q) * d == p * d + q * d && (p - q) * d == p * d - q * d
  {
  }

  /** A quotient and a remainder in range are the ones division gives. */
  lemma {:induction false} DivisionUnique(n: int, d: int, q: int, r: int)
    requires d > 0 && 0 <= r < d && n == q * d + r
    ensures n % d == r
  {
    EuclidSplit(n, d);
    ProductSum(n / d, q, d);
    SmallMultiple(n / d - q, d);
  }

  lemma {:induction false} SmallMultiple(x: int, d: int)
    requires -d < x * d < d
    ensures x == 0
  {
    assert x >= 1 ==> x * d >= d;
    assert x <= -1 ==> x * d <= -d;
  }

  lemma {:induction false} SmallMod(x: nat, m: nat)
    requires x < m
    ensures x % m == x
  {
    DivisionUnique(x, m, 0, x);
  }

  /** Multiples of the modulus do not matter. */
  lemma {:induction false} ModShift(n: int, k: int, m: int)
    requires m > 0
    ensures (n + k * m) % m == n % m
  {
    EuclidSplit(n, m);
    ProductSum(n / m, k, m);
    DivisionUnique(n + k * m, m, n / m + k, n % m);
  }

  lemma {:induction false} QuotientNat(n: nat, d: nat)
    requires d > 0
    ensures n / d >= 0
  {
    var q := n / d;
    assert n == d * q + n % d;
    assert q <= -1 ==> d * q <= d * -1;
  }

  /** Numbers in pairs: a hash without collisions. */
  function Pairing(a: nat, b: nat): nat {
    if a == 0 then 2 * b else 2 * Pairing(a - 1, b) + 1
  }

  lemma {:induction false} PairingInjective(a: nat, b: nat, c: nat, d: nat)
    requires Pairing(a, b) == Pairing(c, d)
    ensures a == c && b == d
  {
    if a > 0 && c > 0 { PairingInjective(a - 1, b, c - 1, d); }
  }
}
