/** The verification-key check: a product of differences that vanishes on members only. */
module VkCheck {
  import opened Basics

  predicate IsPrime(p: nat) {
    p >= 2 && forall d | 2 <= d < p :: p % d != 0
  }

  /** The quadratic gate `acc * check - acc * key`, in the field of order `p`. */
  function Gate(p: nat, acc: Fr, check: Fr, key: Fr): Fr
    requires p > 0
  {
    (acc * check - acc * key) % p
  }

  function Product(p: nat, check: Fr, keys: seq<Fr>): Fr
    requires p > 0
  {
    if keys == [] then 1 % p else Gate(p, Product(p, check, keys[..|keys| - 1]), check, keys[|keys| - 1])
  }

  /** Folds the gate over the constants and enforces that the product is zero. */
  method GenerateVkCheckConstraint(p: nat, check: Fr, keys: seq<Fr>) returns (ok: bool)
    requires IsPrime(p) && check < p && forall k | k in keys :: k < p
    ensures ok <==> check in keys
  {
    var prod := 1 % p;
    for i := 0 to |keys|
      invariant prod == Product(p, check, keys[..i])
    {
      assert keys[..i + 1][..i] == keys[..i];
      prod := Gate(p, prod, check, keys[i]);
    }
    assert keys[..|keys|] == keys;
    ProductVanishes(p, check, keys);
    ok := prod == 0;
  }

  // ----- Euclid's lemma

  /** Bezout: a prime and a number it does not divide combine to one. */
  lemma {:induction false} Bezout(p: nat, a: nat) returns (x: int, y: int)
    requires IsPrime(p) && 0 < a < p
    ensures x * a + y * p == 1
    decreases a
  {
    if a == 1 {
      return 1, 0;
    }
    // p == q * a + r with 0 < r < a
    var q, r := p / a, p % a;
    assert r != 0;
    var u, v := Bezout(p, r);
    x, y := -u * q, v + u;
    assert u * r == u * (p - q * a) by { assert r == p - q * a; }
    assert x * a + y * p == u * (p - q * a) + v * p;
  }

  /** A prime that divides a product divides a factor. */
  lemma {:induction false} Euclid(p: nat, a: nat, b: nat)
    requires IsPrime(p) && a < p && b < p && (a * b) % p == 0
    ensures a == 0 || b == 0
  {
    if a != 0 {
      var x, y := Bezout(p, a);
      var k := (a * b) / p;
      assert a * b == k * p;
      assert b == (x * k + y * b) * p by {
        assert b == (x * a + y * p) * b == x * (a * b) + (y * b) * p;
      }
      var m := x * k + y * b;
      SmallMultiple(m, p);
    }
  }

  lemma {:induction false} GateZero(p: nat, acc: Fr, check: Fr, key: Fr)
    requires IsPrime(p) && acc < p && check < p && key < p
    ensures Gate(p, acc, check, key) == 0 <==> acc == 0 || check == key
  {
    var d := check - key;
    assert acc * check - acc * key == acc * d;
    if check == key {
      assert acc * d == 0;
    } else if acc != 0 {
      var e := if d > 0 then d else d + p;
      assert acc * e == acc * d || acc * e == acc * d + acc * p;
      ModShift(acc * d, acc, p);
      if (acc * d) % p == 0 { Euclid(p, acc, e); }
    }
  }

  /** The product vanishes exactly when the checked hash is one of the keys. */
  lemma {:induction false} ProductVanishes(p: nat, check: Fr, keys: seq<Fr>)
    requires IsPrime(p) && check < p && forall k | k in keys :: k < p
    ensures Product(p, check, keys) < p
    ensures Product(p, check, keys) == 0 <==> check in keys
    decreases |keys|
  {
    if keys != [] {
      var init, last := keys[..|keys| - 1], keys[|keys| - 1];
      assert keys == init + [last];
      assert last in keys && forall k | k in init :: k in keys;
      ProductVanishes(p, check, init);
      GateZero(p, Product(p, check, init), check, last);
    }
  }
}
