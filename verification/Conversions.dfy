/** Conversions between field elements, 256-bit words, secrets and addresses. */
module Conversions {
  import opened Basics
  import opened Digits

  datatype ConversionError = Overflow | Panic
  datatype Converted<+T> = Done(value: T) | Refused(error: ConversionError)

  const WORD: nat := 0x1_0000_0000_0000_0000  // one 64-bit limb
  const LIMBS: nat := 4
  const ADDRESS_BYTES: nat := 20

  // ----- Words from limbs

  /** The 64-bit digits of a number without leading zeros, least significant first. */
  function MinimalDigits(v: nat): seq<nat> {
    if v == 0 then [] else [v % WORD] + MinimalDigits(v / WORD)
  }

  lemma {:induction false} MinimalDigitsFit(v: nat, n: nat)
    requires v < Pow(WORD, n)
    ensures |MinimalDigits(v)| <= n
    ensures FromDigits(WORD, MinimalDigits(v)) == v
    decreases n
  {
    if v > 0 {
      QuotientBelow(WORD, v, Pow(WORD, n - 1));
      MinimalDigitsFit(v / WORD, n - 1);
      SplitLast(WORD, v);
      assert MinimalDigits(v)[1..] == MinimalDigits(v / WORD);
    }
  }

  lemma {:induction false} TrailingZeros(s: seq<nat>, n: nat)
    ensures FromDigits(WORD, s + seq(n, _ => 0)) == FromDigits(WORD, s)
    decreases |s|
  {
    if s == [] {
      assert s + seq(n, _ => 0) == seq(n, _ => 0);
      ZeroDigits(n);
    } else {
      assert (s + seq(n, _ => 0))[1..] == s[1..] + seq(n, _ => 0);
      TrailingZeros(s[1..], n);
    }
  }

  lemma {:induction false} ZeroDigits(n: nat)
    ensures FromDigits(WORD, seq(n, _ => 0)) == 0
  {
    if n > 0 {
      assert seq(n, _ => 0)[1..] == seq(n - 1, _ => 0);
      ZeroDigits(n - 1);
    }
  }

  /** Fills the four limbs digit by digit; the word they make is the number itself. */
  method ToWord(v: nat) returns (word: nat)
    requires v < Pow(WORD, LIMBS)
    ensures word == v
  {
    var limbs := new nat[LIMBS](_ => 0);
    var digits := MinimalDigits(v);
    MinimalDigitsFit(v, LIMBS);
    for i := 0 to |digits|
      invariant forall j | 0 <= j < LIMBS :: limbs[j] == if j < i then digits[j] else 0
    {
      limbs[i] := digits[i];
    }
    word := FromDigits(WORD, limbs[..]);
    assert limbs[..] == digits + seq(LIMBS - |digits|, _ => 0);
    TrailingZeros(digits, LIMBS - |digits|);
  }

  /** Back to the field. The bound admits the field order itself, which becomes zero. */
  function FromWord(order: nat, word: nat): Converted<Fr>
    requires order > 0
  {
    if word > order then Refused(Overflow) else Done(word % order)
  }

  lemma {:induction false} WordRoundTrip(order: nat, word: nat)
    requires 0 < order
    ensures word < order ==> FromWord(order, word) == Done(word)
    ensures FromWord(order, order) == Done(0)
    ensures FromWord(order, word).Done? ==> (FromWord(order, word).value == word <==> word < order)
  {
    if word < order { SmallMod(word, order); }
    DivisionUnique(order, order, 1, 0);
  }

  // ----- Compressed secrets

  /** A word as its low bits and what is left above them. */
  function SplitAt(p: nat, word: nat): (parts: (nat, nat))
    requires p > 0
    ensures word == parts.0 + p * parts.1 && parts.0 < p
  {
    SplitLast(p, word);
    (word - p * (word / p), word / p)
  }

  lemma {:induction false} SplitUnique(p: nat, y: nat, top: nat)
    requires y < p
    ensures SplitAt(p, y + p * top) == (y, top)
  {
    HeadTail(p, y, top);
  }

  /** The weight of the top bit of a 256-bit word, where a compressed point keeps its sign. */
  ghost predicate IsSignBit(p: nat) {
    0 < p && p == Pow2(255)
  }

  /** Five field elements, the last a flag, into four words: the flag becomes the top bit of
      the last one. A result of more than 32 bytes panics. */
  function Pack(p: nat, s: seq<Fr>): Converted<seq<nat>>
    requires |s| == 5
  {
    var point := s[3] + p * s[4];
    if point >= 2 * p then Refused(Panic) else Done([s[0], s[1], s[2], point])
  }

  /** Four words back into five elements; a word above the field order panics. */
  function Unpack(p: nat, order: nat, w: seq<nat>): Converted<seq<Fr>>
    requires |w| == 4 && 0 < order && 0 < p
  {
    if w[0] > order || w[1] > order || w[2] > order then Refused(Panic)
    else
      var (y, top) := SplitAt(p, w[3]);
      Done([FromWord(order, w[0]).value, FromWord(order, w[1]).value, FromWord(order, w[2]).value, y % order, top])
  }

  ghost predicate Canonical(order: nat, s: seq<Fr>) {
    |s| == 5 && forall i | 0 <= i < 5 :: s[i] < order
  }

  /** The layout: the first three words are the first three elements, and the last holds the fourth
      below its top bit and the flag in it. */
  lemma {:induction false} PackLayout(p: nat, s: seq<Fr>)
    requires IsSignBit(p) && |s| == 5 && s[3] < p && Pack(p, s).Done?
    ensures var w := Pack(p, s).value;
            && |w| == 4 && (forall i | 0 <= i < 3 :: w[i] == s[i])
            && w[3] < Pow2(256) && w[3] % Pow2(255) == s[3] && w[3] / Pow2(255) == s[4]
  {
    assert Pow2(256) == 2 * Pow2(255);
    HeadTail(p, s[3], s[4]);
  }

  /** The same read back: a word above the field order is refused, any other is reduced by it. */
  lemma {:induction false} UnpackLayout(p: nat, order: nat, w: seq<nat>)
    requires IsSignBit(p) && |w| == 4 && 0 < order
    ensures Unpack(p, order, w).Done? <==> forall i | 0 <= i < 3 :: w[i] <= order
    ensures Unpack(p, order, w).Done? ==>
              var s := Unpack(p, order, w).value;
              && |s| == 5 && (forall i | 0 <= i < 3 :: s[i] == w[i] % order)
              && s[3] == w[3] % Pow2(255) % order && s[4] == w[3] / Pow2(255)
  {
    var (y, top) := SplitAt(p, w[3]);
    HeadTail(p, y, top);
  }

  lemma {:induction false} FlagFits(y: nat, flag: nat, p: nat)
    requires y < p
    ensures y + p * flag < 2 * p <==> flag <= 1
  {
    if flag >= 2 { assert p * flag >= p * 2; }
  }

  /** Packing canonical secrets succeeds exactly when the flag is a bit, and unpacking then
      gives the secrets back. */
  lemma {:induction false} PackRoundTrip(p: nat, order: nat, s: seq<Fr>)
    requires IsSignBit(p) && Canonical(order, s) && order <= p
    ensures Pack(p, s).Done? <==> s[4] <= 1
    ensures Pack(p, s).Done? ==> Unpack(p, order, Pack(p, s).value) == Done(s)
  {
    assert s[0] < order && s[1] < order && s[2] < order && s[3] < order;
    FlagFits(s[3], s[4], p);
    SplitUnique(p, s[3], s[4]);
    WordRoundTrip(order, s[0]);
    WordRoundTrip(order, s[1]);
    WordRoundTrip(order, s[2]);
    SmallMod(s[3], order);
    assert [s[0], s[1], s[2], s[3], s[4]] == s;
  }

  /** Unpacking and packing four words gives them back exactly when the first three, and the
      last without its top bit, are below the field order. */
  lemma {:induction false} UnpackRoundTrip(p: nat, order: nat, w: seq<nat>)
    requires IsSignBit(p) && |w| == 4 && 0 < order <= p && w[3] < 2 * p && Unpack(p, order, w).Done?
    ensures Pack(p, Unpack(p, order, w).value) == Done(w) <==>
              w[0] < order && w[1] < order && w[2] < order && SplitAt(p, w[3]).0 < order
  {
    var (y, top) := SplitAt(p, w[3]);
    FlagFits(y, top, p);
    WordRoundTrip(order, w[0]);
    WordRoundTrip(order, w[1]);
    WordRoundTrip(order, w[2]);
    Reduced(y, order);
    FlagFits(y % order, top, p);
    var s := Unpack(p, order, w).value;
    assert Pack(p, s) == Done([s[0], s[1], s[2], y % order + p * top]);
    assert w == [w[0], w[1], w[2], w[3]];
  }

  lemma {:induction false} Reduced(y: nat, order: nat)
    requires 0 < order
    ensures y % order < order
    ensures y % order == y <==> y < order
  {
    if y < order { SmallMod(y, order); }
  }

  // ----- Addresses

  const MAX_ADDRESS: nat := 2923003274661805836407369665432566039311865085951

  type Address = a: seq<nat> | |a| == ADDRESS_BYTES && AllBelow(256, a) ghost witness seq(ADDRESS_BYTES, _ => 0)

  /** An address, read as a big-endian number, is a field element. */
  function FromAddress(a: Address): Fr {
    FromDigits(256, Reverse(a))
  }

  /** Each byte has the weight of its place, the first being the most significant: another byte in one
      place changes the number by its difference times that weight, and no bytes set make zero. */
  lemma {:induction false} ByteWeights(a: Address, i: nat, b: nat)
    requires i < ADDRESS_BYTES && b < 256
    ensures AllBelow(256, a[i := b]) && Pow(256, ADDRESS_BYTES - 1 - i) == Pow2(8 * (ADDRESS_BYTES - 1 - i))
    ensures var weight := Pow2(8 * (ADDRESS_BYTES - 1 - i));
            FromAddress(a[i := b]) + a[i] * weight == FromAddress(a) + b * weight
    ensures a == seq(ADDRESS_BYTES, _ => 0) ==> FromAddress(a) == 0
  {
    PowOfBytes(ADDRESS_BYTES - 1 - i);
    ReverseUpdate(a, i, b);
    DigitWeight(256, Reverse(a), ADDRESS_BYTES - 1 - i, b);
    if a == seq(ADDRESS_BYTES, _ => 0) { ZeroBytes(a); }
  }

  lemma {:induction false} ZeroBytes(a: seq<nat>)
    requires forall i | 0 <= i < |a| :: a[i] == 0
    ensures FromDigits(256, Reverse(a)) == 0
    decreases |a|
  {
    ReverseAll(a);
    NoDigits(256, Reverse(a));
  }

  /** The low twenty bytes of a field element, if it passes the bound check. */
  function ToAddress(v: Fr): (r: Converted<seq<nat>>)
    ensures r.Done? ==> |r.value| == ADDRESS_BYTES
  {
    if v > MAX_ADDRESS then Refused(Overflow) else Done(BigEndian(256, v, ADDRESS_BYTES))
  }

  lemma {:induction false} PowOfBytes(n: nat)
    ensures Pow(256, n) == Pow2(8 * n)
  {
    if n > 0 {
      PowOfBytes(n - 1);
      var k := 8 * (n - 1);
      assert Pow2(k + 8) == 2 * Pow2(k + 7) == 4 * Pow2(k + 6) == 8 * Pow2(k + 5) == 16 * Pow2(k + 4);
      assert Pow2(k + 4) == 2 * Pow2(k + 3) == 4 * Pow2(k + 2) == 8 * Pow2(k + 1) == 16 * Pow2(k);
    }
  }

  /** The bound the program checks is one bit wider than an address. */
  lemma {:induction false} MaxAddressIs()
    ensures MAX_ADDRESS == Pow2(161) - 1 && Pow2(160) <= MAX_ADDRESS
  {
    assert Pow2(8) == 0x100;
    ShlPow2(8, 8);
    ShlIsProduct(0x100, 8);
    ShlPow2(16, 16);
    ShlIsProduct(0x1_0000, 16);
    ShlPow2(32, 32);
    ShlIsProduct(0x1_0000_0000, 32);
    ShlPow2(64, 64);
    ShlIsProduct(0x1_0000_0000_0000_0000, 64);
    ShlPow2(128, 32);
    ShlIsProduct(Pow2(128), 32);
    assert Pow2(161) == 2 * Pow2(160);
  }

  /** Every address survives the trip through the field. */
  lemma {:induction false} AddressRoundTrip(a: Address)
    ensures ToAddress(FromAddress(a)) == Done(a)
  {
    ReverseBelow(256, a);
    ToFromDigits(256, Reverse(a));
    ReverseTwice(a);
    PowOfBytes(ADDRESS_BYTES);
    MaxAddressIs();
  }

  /** The other way round, an element that passes the check comes back exactly when it is below
      2^160: the check lets 2^160 to 2^161 - 1 through with their top bit dropped. */
  lemma {:induction false} ElementRoundTrip(v: Fr)
    requires ToAddress(v).Done?
    ensures AllBelow(256, ToAddress(v).value)
    ensures FromAddress(ToAddress(v).value) == v <==> v < Pow2(160)
  {
    var ds := ToDigits(256, v, ADDRESS_BYTES);
    DigitsBelow(256, v, ADDRESS_BYTES);
    ReverseBelow(256, ds);
    ReverseTwice(ds);
    PowOfBytes(ADDRESS_BYTES);
    if v < Pow2(160) {
      FromToDigits(256, v, ADDRESS_BYTES);
    } else {
      ToFromDigits(256, ds);
    }
  }

  /** An input the check should refuse: 2^160 becomes the zero address. */
  lemma {:induction false} StrayAddress()
    ensures ToAddress(Pow2(160)).Done?
    ensures AllBelow(256, ToAddress(Pow2(160)).value) && FromAddress(ToAddress(Pow2(160)).value) != Pow2(160)
  {
    MaxAddressIs();
    ElementRoundTrip(Pow2(160));
  }
}
