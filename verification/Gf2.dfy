/** Numbers as polynomials over the field of two elements: bit k of a number is the coefficient
    of x^k, the exclusive or is the sum, and multiplication is carry-less. */
module Gf2 {
  function Pow2(n: nat): (r: nat)
    ensures r > 0
  {
    if n == 0 then 1 else 2 * Pow2(n - 1)
  }

  lemma {:induction false} Pow2Grows(n: nat, m: nat)
    requires n <= m
    ensures Pow2(n) <= Pow2(m)
  {
    if n < m {
      Pow2Grows(n, m - 1);
    }
  }

  /** The bitwise exclusive or of two unsigned values. */
  function Xor(a: nat, b: nat): nat
    decreases a + b
  {
    if a == 0 && b == 0 then 0 else 2 * Xor(a / 2, b / 2) + if a % 2 == b % 2 then 0 else 1
  }

  lemma {:induction false} XorZero(a: nat)
    ensures Xor(a, 0) == a && Xor(0, a) == a
  {
    if a > 0 {
      XorZero(a / 2);
    }
  }

  lemma {:induction false} XorSelf(a: nat)
    ensures Xor(a, a) == 0
  {
    if a > 0 {
      XorSelf(a / 2);
    }
  }

  lemma {:induction false} XorCommutes(a: nat, b: nat)
    ensures Xor(a, b) == Xor(b, a)
    decreases a + b
  {
    if a + b > 0 {
      XorCommutes(a / 2, b / 2);
    }
  }

  lemma XorHalf(a: nat, b: nat)
    ensures Xor(a, b) / 2 == Xor(a / 2, b / 2) && Xor(a, b) % 2 == (if a % 2 == b % 2 then 0 else 1)
  {
  }

  lemma SameHalves(x: nat, y: nat)
    requires x / 2 == y / 2 && x % 2 == y % 2
    ensures x == y
  {
  }

  lemma {:induction false} XorAssociates(a: nat, b: nat, c: nat)
    ensures Xor(Xor(a, b), c) == Xor(a, Xor(b, c))
    decreases a + b + c
  {
    if a + b + c > 0 {
      var d, e := Xor(a, b), Xor(b, c);
      XorHalf(a, b);
      XorHalf(b, c);
      XorHalf(d, c);
      XorHalf(a, e);
      XorAssociates(a / 2, b / 2, c / 2);
      SameHalves(Xor(d, c), Xor(a, e));
    }
  }

  lemma XorDouble(a: nat, b: nat)
    ensures Xor(2 * a, 2 * b) == 2 * Xor(a, b)
  {
  }

  lemma XorAppend(a: nat, x: nat, b: nat, y: nat)
    requires x <= 1 && y <= 1
    ensures Xor(2 * a + x, 2 * b + y) == 2 * Xor(a, b) + if x == y then 0 else 1
  {
    XorHalf(2 * a + x, 2 * b + y);
  }

  lemma XorExchange(a: nat, b: nat, c: nat, d: nat)
    ensures Xor(Xor(a, b), Xor(c, d)) == Xor(Xor(a, c), Xor(b, d))
  {
    XorAssociates(a, b, Xor(c, d));
    XorAssociates(b, c, d);
    XorCommutes(b, c);
    XorAssociates(c, b, d);
    XorAssociates(a, c, Xor(b, d));
  }

  lemma XorCancels(a: nat, b: nat)
    ensures Xor(Xor(a, b), b) == a
  {
    XorAssociates(a, b, b);
    XorSelf(b);
    XorZero(a);
  }

  lemma XorIsZero(a: nat, b: nat)
    ensures Xor(a, b) == 0 <==> a == b
  {
    XorSelf(a);
    XorCancels(a, b);
    XorZero(b);
  }

  /** a followed by the n bits of l. */
  function Join(a: nat, l: nat, n: nat): nat
    decreases n
  {
    if n == 0 then a else 2 * Join(a, l / 2, n - 1) + l % 2
  }

  lemma TimesDouble(a: nat, k: nat)
    ensures a * (2 * k) == 2 * (a * k)
  {
  }

  lemma {:induction false} JoinIsSum(a: nat, l: nat, n: nat)
    requires l < Pow2(n)
    ensures Join(a, l, n) == a * Pow2(n) + l
    decreases n
  {
    if n > 0 {
      JoinIsSum(a, l / 2, n - 1);
      TimesDouble(a, Pow2(n - 1));
      assert Pow2(n) == 2 * Pow2(n - 1);
    }
  }

  lemma {:induction false} XorBound(l: nat, m: nat, n: nat)
    requires l < Pow2(n) && m < Pow2(n)
    ensures Xor(l, m) < Pow2(n)
    decreases n
  {
    if n > 0 {
      XorHalf(l, m);
      XorBound(l / 2, m / 2, n - 1);
    }
  }

  lemma JoinHalf(a: nat, l: nat, n: nat)
    requires n > 0
    ensures Join(a, l, n) / 2 == Join(a, l / 2, n - 1) && Join(a, l, n) % 2 == l % 2
  {
  }

  lemma {:induction false} XorJoin(a: nat, l: nat, b: nat, m: nat, n: nat)
    ensures Xor(Join(a, l, n), Join(b, m, n)) == Join(Xor(a, b), Xor(l, m), n)
    decreases n
  {
    if n > 0 {
      var e, z := Xor(a, b), Xor(l, m);
      XorHalf(l, m);
      XorJoin(a, l / 2, b, m / 2, n - 1);
      JoinHalf(a, l, n);
      JoinHalf(b, m, n);
      JoinHalf(e, z, n);
      XorHalf(Join(a, l, n), Join(b, m, n));
      SameHalves(Xor(Join(a, l, n), Join(b, m, n)), Join(e, z, n));
    }
  }

  /** High and low parts do not meet. */
  lemma XorParts(a: nat, l: nat, b: nat, m: nat, n: nat)
    requires l < Pow2(n) && m < Pow2(n)
    ensures Xor(l, m) < Pow2(n)
    ensures Xor(a * Pow2(n) + l, b * Pow2(n) + m) == Xor(a, b) * Pow2(n) + Xor(l, m)
  {
    XorBound(l, m, n);
    XorJoin(a, l, b, m, n);
    JoinIsSum(a, l, n);
    JoinIsSum(b, m, n);
    JoinIsSum(Xor(a, b), Xor(l, m), n);
  }

  /** The product of two polynomials. */
  function Product(q: nat, g: nat): nat {
    if q == 0 then 0 else Xor(Scaled(q, g), 2 * Product(q / 2, g))
  }

  lemma {:induction false} ProductAdds(q: nat, r: nat, g: nat)
    ensures Product(Xor(q, r), g) == Xor(Product(q, g), Product(r, g))
    decreases q + r
  {
    if q + r > 0 {
      XorHalf(q, r);
      ProductAdds(q / 2, r / 2, g);
      XorDouble(Product(q / 2, g), Product(r / 2, g));
      XorExchange(Scaled(q, g), 2 * Product(q / 2, g), Scaled(r, g), 2 * Product(r / 2, g));
      ScaledAdds(q, r, g);
      ProductStep(q, g);
      ProductStep(r, g);
      ProductStep(Xor(q, r), g);
    }
  }

  /** The last coefficient of q times g. */
  function Scaled(q: nat, g: nat): nat {
    if q % 2 == 1 then g else 0
  }

  lemma ScaledAdds(q: nat, r: nat, g: nat)
    ensures Scaled(Xor(q, r), g) == Xor(Scaled(q, g), Scaled(r, g))
  {
    XorHalf(q, r);
    XorSelf(g);
    XorZero(g);
  }

  lemma ProductStep(q: nat, g: nat)
    ensures Product(q, g) == Xor(Scaled(q, g), 2 * Product(q / 2, g))
  {
    XorZero(0);
  }

  /** A multiple of a polynomial of degree n has no smaller degree, unless it is zero. */
  lemma {:induction false} ProductDegree(q: nat, g: nat, n: nat)
    requires Pow2(n) <= g < 2 * Pow2(n)
    ensures q > 0 ==> Product(q, g) >= Pow2(n)
  {
    if q > 1 {
      ProductDegree(q / 2, g, n);
      var d := 2 * Product(q / 2, g);
      assert d >= Pow2(n + 1);
      HighBits(Scaled(q, g), d, n + 1);
    } else if q == 1 {
      XorZero(g);
    }
  }

  lemma HighBits(a: nat, d: nat, n: nat)
    requires a < Pow2(n) <= d
    ensures Xor(a, d) >= Pow2(n)
  {
    var k := Pow2(n);
    var h, l := d / k, d % k;
    assert d == h * k + l;
    XorParts(0, a, h, l, n);
    XorZero(h);
    AtLeastOnce(h, k, l);
  }

  lemma AtLeastOnce(h: nat, k: nat, l: nat)
    requires l < k <= h * k + l
    ensures h * k >= k
  {
    if h > 0 {
      assert h * k == k + (h - 1) * k;
    }
  }

  /** Division by a polynomial of degree n leaves one remainder of smaller degree. */
  lemma RemainderUnique(q: nat, r: nat, q': nat, r': nat, g: nat, n: nat)
    requires Pow2(n) <= g < 2 * Pow2(n) && r < Pow2(n) && r' < Pow2(n)
    requires Xor(Product(q, g), r) == Xor(Product(q', g), r')
    ensures r == r'
  {
    var a, b := Product(q, g), Product(q', g);
    XorExchange(a, r, b, r');
    XorSelf(Xor(a, r));
    XorIsZero(Xor(a, b), Xor(r, r'));
    ProductAdds(q, q', g);
    XorParts(0, r, 0, r', n);
    ProductDegree(Xor(q, q'), g, n);
    XorIsZero(r, r');
  }
}
