/** Numbers as digit sequences: bytes, words and their order. */
module Digits {

  function Pow(b: nat, n: nat): nat {
    if n == 0 then 1 else b * Pow(b, n - 1)
  }

  /** The `n` least significant digits of `v`, least significant first. */
  function ToDigits(b: nat, v: nat, n: nat): (s: seq<nat>)
    requires b > 0
    ensures |s| == n
    decreases n
  {
    if n == 0 then [] else [v % b] + ToDigits(b, v / b, n - 1)
  }

  function FromDigits(b: nat, s: seq<nat>): nat {
    if s == [] then 0 else s[0] + b * FromDigits(b, s[1..])
  }

  ghost predicate AllBelow(b: nat, s: seq<nat>) {
    forall i | 0 <= i < |s| :: s[i] < b
  }

  lemma {:induction false} DigitsBelow(b: nat, v: nat, n: nat)
    requires b > 0
    ensures AllBelow(b, ToDigits(b, v, n))
    decreases n
  {
    if n > 0 { DigitsBelow(b, v / b, n - 1); }
  }

  lemma {:induction false} SplitLast(b: nat, v: nat)
    requires b > 0
    ensures v == b * (v / b) + v % b
  {
  }

  lemma {:induction false} QuotientBelow(b: nat, v: nat, m: nat)
    requires b > 0 && v < b * m
    ensures v / b < m
  {
    SplitLast(b, v);
    var q := v / b;
    assert q >= m ==> b * q >= b * m;
  }

  /** A number that fits is recovered from its digits. */
  lemma {:induction false} FromToDigits(b: nat, v: nat, n: nat)
    requires b > 0 && v < Pow(b, n)
    ensures FromDigits(b, ToDigits(b, v, n)) == v
    decreases n
  {
    if n > 0 {
      QuotientBelow(b, v, Pow(b, n - 1));
      FromToDigits(b, v / b, n - 1);
      SplitLast(b, v);
      assert ToDigits(b, v, n)[1..] == ToDigits(b, v / b, n - 1);
    }
  }

  /** Digits are recovered from the number they make. */
  lemma {:induction false} ToFromDigits(b: nat, s: seq<nat>)
    requires b > 0 && AllBelow(b, s)
    ensures ToDigits(b, FromDigits(b, s), |s|) == s
    ensures FromDigits(b, s) < Pow(b, |s|)
    decreases |s|
  {
    if s != [] {
      var rest := s[1..];
      ToFromDigits(b, rest);
      HeadTail(b, s[0], FromDigits(b, rest));
      Horner(b, s[0], FromDigits(b, rest), Pow(b, |rest|));
    }
  }

  lemma {:induction false} HeadTail(b: nat, d: nat, q: nat)
    requires d < b
    ensures (d + b * q) % b == d && (d + b * q) / b == q
  {
    var v := d + b * q;
    SplitLast(b, v);
    var x := v / b - q;
    assert b * x == d - v % b by { assert b * (v / b - q) == b * (v / b) - b * q; }
    assert x >= 1 ==> b * x >= b;
    assert x <= -1 ==> b * x <= -1 * b;
  }

  lemma {:induction false} Horner(b: nat, d: nat, q: nat, m: nat)
    requires d < b && q < m
    ensures d + b * q < b * m
  {
    assert b * (q + 1) == b * q + b;
    assert b * (q + 1) <= b * m;
  }

  // ----- Most significant first

  function Reverse<T>(s: seq<T>): (r: seq<T>)
    ensures |r| == |s|
  {
    if s == [] then [] else Reverse(s[1..]) + [s[0]]
  }

  lemma {:induction false} ReverseSnoc<T>(s: seq<T>, x: T)
    ensures Reverse(s + [x]) == [x] + Reverse(s)
    decreases |s|
  {
    if s != [] {
      assert (s + [x])[1..] == s[1..] + [x];
      ReverseSnoc(s[1..], x);
    }
  }

  lemma {:induction false} ReverseTwice<T>(s: seq<T>)
    ensures Reverse(Reverse(s)) == s
    decreases |s|
  {
    if s != [] {
      ReverseSnoc(Reverse(s[1..]), s[0]);
      ReverseTwice(s[1..]);
    }
  }

  lemma {:induction false} ReverseBelow(b: nat, s: seq<nat>)
    requires AllBelow(b, s)
    ensures AllBelow(b, Reverse(s))
    decreases |s|
  {
    if s != [] { ReverseBelow(b, s[1..]); }
  }

  /** The digits of `v`, most significant first. */
  function BigEndian(b: nat, v: nat, n: nat): (s: seq<nat>)
    requires b > 0
    ensures |s| == n
  {
    Reverse(ToDigits(b, v, n))
  }

  /** Lexicographic order of sequences of equal length. */
  predicate LexLess(a: seq<nat>, c: seq<nat>)
    requires |a| == |c|
  {
    a != [] && (a[0] < c[0] || (a[0] == c[0] && LexLess(a[1..], c[1..])))
  }

  lemma {:induction false} LexSnoc(a: seq<nat>, c: seq<nat>, x: nat, y: nat)
    requires |a| == |c|
    ensures LexLess(a + [x], c + [y]) <==> LexLess(a, c) || (a == c && x < y)
    decreases |a|
  {
    if a != [] {
      assert (a + [x])[1..] == a[1..] + [x] && (c + [y])[1..] == c[1..] + [y];
      LexSnoc(a[1..], c[1..], x, y);
      assert a == c <==> a[0] == c[0] && a[1..] == c[1..] by {
        assert a == [a[0]] + a[1..] && c == [c[0]] + c[1..];
      }
    }
  }

  /** The order of digit sequences, most significant first, is the order of their numbers. */
  lemma {:induction false} DigitOrder(b: nat, s: seq<nat>, t: seq<nat>)
    requires |s| == |t| && AllBelow(b, s) && AllBelow(b, t)
    ensures LexLess(Reverse(s), Reverse(t)) <==> FromDigits(b, s) < FromDigits(b, t)
    ensures Reverse(s) == Reverse(t) <==> FromDigits(b, s) == FromDigits(b, t)
    decreases |s|
  {
    if s != [] {
      var p, q := FromDigits(b, s[1..]), FromDigits(b, t[1..]);
      DigitOrder(b, s[1..], t[1..]);
      OrderSnoc(Reverse(s[1..]), Reverse(t[1..]), p, q, s[0], t[0]);
      LeadDecides(b, s[0], t[0], p, q);
    }
  }

  lemma {:induction false} LeadDecides(b: nat, x: nat, y: nat, p: nat, q: nat)
    requires x < b && y < b
    ensures x + b * p < y + b * q <==> p < q || (p == q && x < y)
    ensures x + b * p == y + b * q <==> p == q && x == y
  {
    if p < q {
      Horner(b, x, p, q);
    } else if q < p {
      Horner(b, y, q, p);
    }
  }

  /** The order of numbers is the order of their digits, most significant first. */
  lemma {:induction false} BigEndianOrder(b: nat, v: nat, w: nat, n: nat)
    requires b > 0 && v < Pow(b, n) && w < Pow(b, n)
    ensures LexLess(BigEndian(b, v, n), BigEndian(b, w, n)) <==> v < w
    ensures BigEndian(b, v, n) == BigEndian(b, w, n) <==> v == w
  {
    DigitsBelow(b, v, n);
    DigitsBelow(b, w, n);
    FromToDigits(b, v, n);
    FromToDigits(b, w, n);
    DigitOrder(b, ToDigits(b, v, n), ToDigits(b, w, n));
  }

  /** One more digit: the leading digits decide the order, and the last ones where they agree. */
  lemma {:induction false} OrderSnoc(a: seq<nat>, c: seq<nat>, p: nat, q: nat, x: nat, y: nat)
    requires |a| == |c|
    requires LexLess(a, c) <==> p < q
    requires a == c <==> p == q
    ensures LexLess(a + [x], c + [y]) <==> p < q || (p == q && x < y)
    ensures a + [x] == c + [y] <==> p == q && x == y
  {
    LexSnoc(a, c, x, y);
    SnocEqual(a, x, c, y);
  }

  lemma {:induction false} SnocEqual(a: seq<nat>, x: nat, c: seq<nat>, y: nat)
    requires |a| == |c|
    ensures a + [x] == c + [y] <==> a == c && x == y
  {
    if a + [x] == c + [y] {
      assert (a + [x])[..|a|] == a && (c + [y])[..|c|] == c;
      assert (a + [x])[|a|] == x && (c + [y])[|c|] == y;
    }
  }

  /** The weight of one digit. */
  lemma {:induction false} DigitWeight(b: nat, s: seq<nat>, i: nat, d: nat)
    requires i < |s|
    ensures FromDigits(b, s[i := d]) + s[i] * Pow(b, i) == FromDigits(b, s) + d * Pow(b, i)
    decreases i
  {
    var t := s[i := d];
    if i == 0 {
      assert t[1..] == s[1..];
    } else {
      assert t[1..] == s[1..][i - 1 := d];
      DigitWeight(b, s[1..], i - 1, d);
      Scaled(b, FromDigits(b, t[1..]), s[i], FromDigits(b, s[1..]), d, Pow(b, i - 1));
    }
  }

  lemma {:induction false} Scaled(b: nat, x: nat, u: nat, y: nat, v: nat, p: nat)
    requires x + u * p == y + v * p
    ensures b * x + u * (b * p) == b * y + v * (b * p)
  {
    assert b * x + u * (b * p) == b * (x + u * p);
    assert b * y + v * (b * p) == b * (y + v * p);
  }

  lemma {:induction false} NoDigits(b: nat, s: seq<nat>)
    requires forall i | 0 <= i < |s| :: s[i] == 0
    ensures FromDigits(b, s) == 0
    decreases |s|
  {
    if s != [] { NoDigits(b, s[1..]); }
  }

  lemma {:induction false} ReverseAt<T>(s: seq<T>, i: nat)
    requires i < |s|
    ensures Reverse(s)[i] == s[|s| - 1 - i]
    decreases |s|
  {
    if i < |s| - 1 { ReverseAt(s[1..], i); }
  }

  lemma {:induction false} ReverseAll(s: seq<nat>)
    requires forall i | 0 <= i < |s| :: s[i] == 0
    ensures forall i | 0 <= i < |s| :: Reverse(s)[i] == 0
  {
    forall i | 0 <= i < |s| ensures Reverse(s)[i] == 0 { ReverseAt(s, i); }
  }

  lemma {:induction false} ReverseUpdate(s: seq<nat>, i: nat, d: nat)
    requires i < |s|
    ensures Reverse(s[i := d]) == Reverse(s)[|s| - 1 - i := d] && Reverse(s)[|s| - 1 - i] == s[i]
  {
    ReverseAt(s, |s| - 1 - i);
    var u, v := Reverse(s[i := d]), Reverse(s)[|s| - 1 - i := d];
    forall k: nat | k < |s| ensures u[k] == v[k] {
      ReverseAt(s, k);
      ReverseAt(s[i := d], k);
    }
  }
}
