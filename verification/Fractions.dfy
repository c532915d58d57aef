// Fraction.cpp: exact fractions kept in lowest terms by Euclid's algorithm on signed
// operands, with the truncating / and % of section 5.6 of ISO/IEC 14882:2011.

module Fractions {

  function Abs(a: int): (r: nat)
    ensures r == a || r == -a
  {
    if a < 0 then -a else a
  }

  // Truncating quotient and remainder.
  function Quot(a: int, b: int): int
    requires b != 0
  {
    var q := Abs(a) / Abs(b);
    if (a < 0) == (b < 0) then q else -q
  }

  function Rem(a: int, b: int): int
    requires b != 0
  {
    var r := Abs(a) % Abs(b);
    if a < 0 then -r else r
  }

  lemma DivMod(a: nat, b: nat)
    requires b > 0
    ensures a == b * (a / b) + a % b && 0 <= a % b < b
  {
  }

  lemma QuotRem(a: int, b: int)
    requires b != 0
    ensures a == b * Quot(a, b) + Rem(a, b)
    ensures Abs(Rem(a, b)) < Abs(b)
    ensures Rem(a, b) == 0 || (Rem(a, b) < 0 <==> a < 0)
    ensures a == 0 ==> Rem(a, b) == 0
  {
    DivMod(Abs(a), Abs(b));
    Signs(Abs(b), Abs(a) / Abs(b));
  }

  // The sign of the dividend and the size bound make quotient and remainder unique.
  lemma QuotRemUnique(a: int, b: int, q: int, r: int)
    requires b != 0 && a == b * q + r && Abs(r) < Abs(b)
    requires r == 0 || (r < 0 <==> a < 0)
    ensures q == Quot(a, b) && r == Rem(a, b)
  {
    hide Abs, Quot, Rem;
    QuotRem(a, b);
    CloserThan(a, b, r, Rem(a, b));
    SameQuotient(b, q, r, Quot(a, b), Rem(a, b));
  }

  lemma SameQuotient(b: int, q: int, r: int, q': int, r': int)
    requires b * q + r == b * q' + r' && Abs(r' - r) < Abs(b)
    ensures q == q' && r == r'
  {
    hide Abs;
    Difference(b, q, q');
    NoMultiple(b, q - q', r' - r);
  }

  lemma Difference(b: int, q: int, q': int)
    ensures b * (q - q') == b * q - b * q'
  {
  }

  lemma CloserThan(a: int, b: int, r: int, r': int)
    requires Abs(r) < Abs(b) && Abs(r') < Abs(b)
    requires (r == 0 || (r < 0 <==> a < 0)) && (r' == 0 || (r' < 0 <==> a < 0))
    ensures Abs(r' - r) < Abs(b)
  {
  }

  lemma NoMultiple(b: int, k: int, d: int)
    requires b * k == d && Abs(d) < Abs(b)
    ensures k == 0
  {
    AbsTimes(b, k);
  }

  lemma AbsTimes(a: int, b: int)
    ensures Abs(a * b) == Abs(a) * Abs(b)
    ensures b != 0 ==> Abs(a) * Abs(b) >= Abs(a)
  {
    Signs(a, b);
    if b != 0 {
      Grows(Abs(a), Abs(b));
    }
  }

  lemma Signs(a: int, b: int)
    ensures -a * b == -(a * b) == a * -b && -a * -b == a * b
    ensures (a >= 0 && b >= 0) || (a <= 0 && b <= 0) ==> a * b >= 0
    ensures (a >= 0 && b <= 0) || (a <= 0 && b >= 0) ==> a * b <= 0
  {
  }

  lemma Grows(c: nat, q: nat)
    ensures q >= 1 ==> c * q >= c
    ensures c >= 1 ==> c * q >= q
  {
  }

  // ----- the algorithm -----

  // What the loop returns; one round may end after either of its two divisions.
  function Gcd(a: int, b: int): int
    requires b != 0
    decreases Abs(b)
  {
    QuotRem(a, b);
    var a1 := Rem(a, b);
    if a1 == 0 then b
    else
      QuotRem(b, a1);
      var b1 := Rem(b, a1);
      if b1 == 0 then a1 else Gcd(a1, b1)
  }

  ghost predicate Divides(d: int, a: int) {
    exists q :: a == d * q
  }

  lemma Combination(d: int, x: int, y: int, k: int)
    requires Divides(d, x) && Divides(d, y)
    ensures Divides(d, x * k + y)
  {
    var p :| x == d * p;
    var q :| y == d * q;
    assert x * k + y == d * (p * k + q);
  }

  lemma DividesSelf(d: int)
    ensures Divides(d, d) && Divides(d, 0)
  {
    assert d == d * 1;
    assert 0 == d * 0;
  }

  // The result is a common divisor, and every common divisor divides it.
  lemma {:induction false} GcdIsGreatest(a: int, b: int)
    requires b != 0
    ensures Gcd(a, b) != 0
    ensures Divides(Gcd(a, b), a) && Divides(Gcd(a, b), b)
    ensures forall c :: Divides(c, a) && Divides(c, b) ==> Divides(c, Gcd(a, b))
    decreases Abs(b)
  {
    var g := Gcd(a, b);
    QuotRem(a, b);
    var a1 := Rem(a, b);
    if a1 == 0 {
      DividesSelf(b);
      Combination(b, b, 0, Quot(a, b));
      assert b * Quot(a, b) + 0 == a;
    } else {
      QuotRem(b, a1);
      var b1 := Rem(b, a1);
      if b1 == 0 {
        DividesSelf(a1);
        Combination(a1, a1, 0, Quot(b, a1));
      } else {
        GcdIsGreatest(a1, b1);
        Combination(g, a1, b1, Quot(b, a1));
      }
      assert Divides(g, b);
      Combination(g, b, a1, Quot(a, b));
      forall c | Divides(c, a) && Divides(c, b)
        ensures Divides(c, g)
      {
        CommonRem(c, a, b);
        CommonRem(c, b, a1);
      }
    }
  }

  lemma CommonRem(c: int, a: int, b: int)
    requires b != 0 && Divides(c, a) && Divides(c, b)
    ensures Divides(c, Rem(a, b))
  {
    QuotRem(a, b);
    Combination(c, b, a, -Quot(a, b));
    assert b * -Quot(a, b) + a == Rem(a, b);
  }

  // Both divisions of a round are the one step of Euclid's algorithm: an exact division ends
  // it, any other goes on with the divisor and the remainder.
  lemma {:induction false} GcdOneStep(a: int, b: int)
    requires b != 0
    ensures Gcd(a, b) == if Rem(a, b) == 0 then b else Gcd(b, Rem(a, b))
    decreases Abs(b)
  {
    hide Rem;
    QuotRem(a, b);
    var a1 := Rem(a, b);
    if a1 != 0 {
      QuotRem(b, a1);
      var b1 := Rem(b, a1);
      if b1 != 0 {
        GcdOneStep(a1, b1);
      }
    }
  }

  // ----- the sign of the result -----

  // How often the loop divides.
  function Divisions(a: int, b: int): (n: nat)
    requires b != 0
    ensures n >= 1
    decreases Abs(b)
  {
    QuotRem(a, b);
    if Rem(a, b) == 0 then 1 else 1 + Divisions(b, Rem(a, b))
  }

  // That is a matter of the sizes alone, ...
  lemma {:induction false} DivisionsOfSizes(a: int, b: int)
    requires b != 0
    ensures Divisions(a, b) == Divisions(Abs(a), Abs(b))
    decreases Abs(b)
  {
    QuotRem(a, b);
    if Rem(a, b) != 0 {
      DivisionsOfSizes(b, Rem(a, b));
    }
  }

  // ... and decides which operand the result takes its sign from.
  lemma {:induction false} GcdSign(a: int, b: int)
    requires b != 0
    ensures Gcd(a, b) != 0
    ensures Gcd(a, b) > 0 <==> if Divisions(a, b) % 2 == 1 then b > 0 else a > 0
    decreases Abs(b)
  {
    hide Rem, Abs;
    QuotRem(a, b);
    GcdOneStep(a, b);
    var a1 := Rem(a, b);
    if a1 != 0 {
      GcdSign(b, a1);
      OneMore(Divisions(b, a1));
    }
  }

  lemma OneMore(n: nat)
    ensures (1 + n) % 2 == 1 <==> n % 2 != 1
  {
  }

  // Operands of one sign give it to the result.
  lemma {:induction false} GcdOfOneSign(a: int, b: int)
    ensures a > 0 && b > 0 ==> Gcd(a, b) > 0
    ensures a < 0 && b < 0 ==> Gcd(a, b) < 0
  {
    if b != 0 {
      GcdSign(a, b);
    }
  }

  // ----- scaling both operands scales the result, sign included -----

  lemma RemScales(a: int, b: int, k: int)
    requires b != 0 && k != 0
    ensures k * b != 0 && Rem(k * a, k * b) == k * Rem(a, b)
  {
    hide Abs, Quot, Rem;
    QuotRem(a, b);
    ScaledDivision(a, b, k, Quot(a, b), Rem(a, b));
    QuotRemUnique(k * a, k * b, Quot(a, b), k * Rem(a, b));
  }

  lemma ScaledDivision(a: int, b: int, k: int, q: int, r: int)
    requires b != 0 && k != 0 && a == b * q + r && Abs(r) < Abs(b)
    requires (r == 0 || (r < 0 <==> a < 0)) && (a == 0 ==> r == 0)
    ensures k * b != 0 && k * a == (k * b) * q + k * r && Abs(k * r) < Abs(k * b)
    ensures k * r == 0 || (k * r < 0 <==> k * a < 0)
  {
    Distribute(k, b, q, r);
    SameSign(k, a, r);
    ScaledSizes(k, r, b);
  }

  lemma ScaledSizes(k: int, r: int, b: int)
    requires b != 0 && k != 0 && Abs(r) < Abs(b)
    ensures k * b != 0 && Abs(k * r) < Abs(k * b)
  {
    AbsTimes(k, r);
    AbsTimes(k, b);
    ScaledBelow(Abs(k), Abs(r), Abs(b));
  }

  lemma Distribute(k: int, b: int, q: int, r: int)
    ensures k * (b * q + r) == (k * b) * q + k * r
  {
  }

  lemma SameSign(k: int, a: int, r: int)
    requires k != 0 && (r == 0 || (r < 0 <==> a < 0)) && (a == 0 ==> r == 0)
    ensures k * r == 0 || (k * r < 0 <==> k * a < 0)
  {
  }

  lemma ScaledBelow(k: nat, r: nat, b: nat)
    requires k != 0 && r < b
    ensures k * r < k * b && k * b > 0
  {
  }

  lemma {:induction false} GcdScales(a: int, b: int, k: int)
    requires b != 0 && k != 0
    ensures k * b != 0 && Gcd(k * a, k * b) == k * Gcd(a, b)
    decreases Abs(b)
  {
    RemScales(a, b, k);
    QuotRem(a, b);
    var a1 := Rem(a, b);
    if a1 != 0 {
      RemScales(b, a1, k);
      QuotRem(b, a1);
      var b1 := Rem(b, a1);
      if b1 != 0 {
        GcdScales(a1, b1, k);
      }
    }
  }

  // ----- one division is enough -----

  lemma QuotExact(a: int, d: int, q: int)
    requires d != 0 && a == d * q
    ensures Quot(a, d) == q
  {
    QuotRemUnique(a, d, q, 0);
  }

  // After dividing both parts by their gcd, the gcd is 1, so the loop of simplify runs at
  // most once.
  lemma OneDivision(a: int, b: int)
    requires a != 0 && b != 0
    ensures var d := Gcd(a, b);
      && d != 0 && a == d * Quot(a, d) && b == d * Quot(b, d)
      && Quot(a, d) != 0 && Quot(b, d) != 0
      && Gcd(Quot(a, d), Quot(b, d)) == 1
  {
    hide Gcd, Quot, Abs;
    GcdIsGreatest(a, b);
    var d := Gcd(a, b);
    var p := Cofactor(d, a);
    var q := Cofactor(d, b);
    QuotExact(a, d, p);
    QuotExact(b, d, q);
    GcdScales(p, q, d);
    Cancel(d, Gcd(p, q));
  }

  lemma Cofactor(d: int, a: int) returns (q: int)
    requires Divides(d, a)
    ensures a == d * q
    ensures a != 0 ==> q != 0
  {
    q :| a == d * q;
  }

  lemma Cancel(d: int, g: int)
    requires d != 0 && d == d * g
    ensures g == 1
  {
    assert d * (g - 1) == 0;
  }

  ghost predicate Coprime(a: int, b: int) {
    forall c :: Divides(c, a) && Divides(c, b) ==> Abs(c) == 1
  }

  lemma UnitGcd(a: int, b: int)
    requires b != 0 && Abs(Gcd(a, b)) == 1
    ensures Coprime(a, b)
  {
    GcdIsGreatest(a, b);
    forall c | Divides(c, a) && Divides(c, b)
      ensures Abs(c) == 1
    {
      var q :| Gcd(a, b) == c * q;
      AbsTimes(c, q);
      UnitFactor(Abs(c), Abs(q));
    }
  }

  lemma UnitFactor(c: nat, q: nat)
    requires c * q == 1
    ensures c == 1
  {
    Grows(c, q);
  }

  lemma UnitCoprime(a: int, b: int)
    requires a == 1 || b == 1
    ensures Coprime(a, b)
  {
    forall c | Divides(c, a) && Divides(c, b)
      ensures Abs(c) == 1
    {
      var q :| 1 == c * q;
      AbsTimes(c, q);
      UnitFactor(Abs(c), Abs(q));
    }
  }

  lemma ByOne(a: int)
    ensures Quot(a, 1) == a
  {
  }

  // What simplify leaves: nothing is done when a part is 0 or 1.
  function Simplified(n: int, d: int): (int, int) {
    if n == 0 || d == 0 || n == 1 || d == 1 then (n, d)
    else
      GcdIsGreatest(n, d);
      var g := Gcd(n, d);
      (Quot(n, g), Quot(d, g))
  }

  ghost function Ratio(p: (int, int)): real
    requires p.1 != 0
  {
    p.0 as real / p.1 as real
  }

  // A part that is 0 or 1 keeps both as they are.
  lemma LeftAlone(n: int, d: int)
    requires n in {0, 1} || d in {0, 1}
    ensures Simplified(n, d) == (n, d)
  {
  }

  // Parts of one sign come out positive. Parts of different signs keep different signs, with
  // the minus in the numerator exactly when the number of divisions is odd, but for 1/-1.
  lemma SimplifiedSign(n: int, d: int)
    requires n != 0 && d != 0
    ensures var p := Simplified(n, d);
      && (n > 0 && d > 0 ==> p.0 > 0 && p.1 > 0)
      && (n < 0 && d < 0 ==> p.0 > 0 && p.1 > 0)
      && ((n < 0 < d || d < 0 < n) ==>
        if Divisions(n, d) % 2 == 1 && (n, d) != (1, -1) then p.0 < 0 < p.1 else p.1 < 0 < p.0)
  {
    if n == 1 || d == 1 {
      UnitDivisions(n, d);
    } else {
      hide Gcd, Quot, Divisions;
      OneDivision(n, d);
      GcdSign(n, d);
      ProductSign(Gcd(n, d), Quot(n, Gcd(n, d)));
      ProductSign(Gcd(n, d), Quot(d, Gcd(n, d)));
    }
  }

  lemma UnitDivisions(n: int, d: int)
    requires d != 0 && n != 0
    ensures d == 1 ==> Divisions(n, d) == 1
    ensures n == 1 && Abs(d) > 1 ==> Divisions(n, d) == 2
  {
    if d == 1 {
      assert Rem(n, 1) == 0;
    } else if n == 1 && Abs(d) > 1 {
      QuotRemUnique(1, d, 0, 1);
      assert Rem(d, 1) == 0;
      assert Divisions(d, 1) == 1;
    }
  }

  lemma ProductSign(g: int, q: int)
    requires g != 0 && q != 0
    ensures g * q > 0 <==> (g > 0 <==> q > 0)
    ensures g * q != 0
  {
  }

  // As in the program's own test, and one with each place of the minus.
  lemma SimplifiedExamples()
    ensures Simplified(10, 4) == (5, 2) && Simplified(-10, -4) == (5, 2)
    ensures Simplified(10, -4) == (5, -2) && Simplified(10, -5) == (-2, 1)
  {
    assert Rem(10, 4) == 2 && Rem(4, 2) == 0 && Rem(-10, -4) == -2 && Rem(-4, -2) == 0;
    assert Rem(10, -4) == 2 && Rem(-4, 2) == 0 && Rem(10, -5) == 0;
  }

  lemma CrossEqual(a: int, b: int, c: int, d: int)
    requires b != 0 && d != 0
    ensures a as real / b as real == c as real / d as real <==> a * d == c * b
  {
    var x, y := a as real / b as real, c as real / d as real;
    assert x * b as real == a as real && y * d as real == c as real;
    assert (a * d) as real == x * (b as real * d as real);
    assert (c * b) as real == y * (b as real * d as real);
    assert b as real * d as real != 0.0;
    if a * d == c * b {
      assert (x - y) * (b as real * d as real) == 0.0;
    }
  }

  // Simplifying keeps the value, and leaves lowest terms unless the value is 0.
  lemma SimplifiedMeaning(n: int, d: int)
    requires d != 0
    ensures var p := Simplified(n, d);
      && p.1 != 0 && Ratio(p) == Ratio((n, d))
      && (n != 0 ==> p.0 != 0 && Coprime(p.0, p.1))
  {
    if n == 1 || d == 1 {
      UnitCoprime(n, d);
    } else if n != 0 {
      hide Gcd, Quot, Abs, Divides;
      OneDivision(n, d);
      var g := Gcd(n, d);
      UnitGcd(Quot(n, g), Quot(d, g));
      SameRatio(n, d, g, Quot(n, g), Quot(d, g));
    }
  }

  // No common factor is left, unless the value is 0.
  ghost predicate LowestParts(p: (int, int)) {
    p.1 != 0 && (p.0 != 0 ==> Coprime(p.0, p.1))
  }

  lemma LowestSimplified(n: int, d: int)
    requires d != 0
    ensures LowestParts(Simplified(n, d)) && Ratio(Simplified(n, d)) == Ratio((n, d))
  {
    hide Gcd, Quot, Coprime;
    SimplifiedMeaning(n, d);
  }

  lemma SameRatio(n: int, d: int, g: int, p: int, q: int)
    requires d != 0 && q != 0 && n == g * p && d == g * q
    ensures p as real / q as real == n as real / d as real
  {
    assert p * (g * q) == (g * p) * q;
    CrossEqual(p, q, n, d);
  }

  // ----- equal fractions have equal parts -----

  // Parts whose signed gcd is 1 are determined by their ratio, sign included.
  lemma UnitPartsUnique(p: int, q: int, r: int, s: int)
    requires p != 0 && q != 0 && r != 0 && s != 0
    requires Gcd(p, q) == 1 && Gcd(r, s) == 1 && p * s == r * q
    ensures p == r && q == s
  {
    hide Gcd;
    GcdScales(p, q, r);
    GcdScales(r, s, p);
    assert r * p == p * r && r * q == p * s;
    Cancels(p, q, s);
  }

  lemma Cancels(p: int, q: int, s: int)
    requires p != 0 && p * s == p * q
    ensures q == s
  {
    assert p * (s - q) == 0;
  }

  lemma SimplifiedUnit(n: int, d: int)
    requires n != 0 && d != 0 && (n, d) != (1, -1)
    ensures var p := Simplified(n, d);
      p.0 != 0 && p.1 != 0 && Gcd(p.0, p.1) == 1 && p.0 * d == n * p.1
  {
    if d == 1 {
      assert Rem(n, 1) == 0;
    } else if n == 1 {
      if d != -1 {
        QuotRemUnique(1, d, 0, 1);
      }
    } else {
      OneDivision(n, d);
      hide Gcd, Quot;
      var g := Gcd(n, d);
      Reorder(g, Quot(n, g), Quot(d, g));
    }
  }

  lemma Reorder(g: int, p: int, q: int)
    ensures p * (g * q) == (g * p) * q
  {
  }

  // Equal fractions simplify to the same pair exactly when, for the value 0, they are given
  // with the same denominator, and otherwise both or neither are given as 1/-1: zeros are
  // left alone, and so is 1/-1, while every other form of -1 becomes -1/1.
  lemma CanonicalExactlyWhen(a: int, b: int, c: int, d: int)
    requires b != 0 && d != 0 && a * d == c * b
    ensures Simplified(a, b) == Simplified(c, d) <==>
      if a == 0 then b == d else ((a, b) == (1, -1) <==> (c, d) == (1, -1))
  {
    hide Gcd, Quot, Simplified;
    ZeroTogether(a, b, c, d);
    if a == 0 {
      ZeroAlone(b);
      ZeroAlone(d);
    } else if (a, b) == (1, -1) {
      if (c, d) != (1, -1) {
        MinusOne(c, d);
      }
    } else if (c, d) == (1, -1) {
      MinusOne(a, b);
    } else {
      SimplifiedUnit(a, b);
      SimplifiedUnit(c, d);
      var p, q := Simplified(a, b), Simplified(c, d);
      CrossChain(p.0, p.1, a, b, c, d, q.0, q.1);
      UnitPartsUnique(p.0, p.1, q.0, q.1);
    }
  }

  lemma ZeroTogether(a: int, b: int, c: int, d: int)
    requires b != 0 && d != 0 && a * d == c * b
    ensures a == 0 <==> c == 0
  {
  }

  lemma ZeroAlone(b: int)
    ensures Simplified(0, b) == (0, b)
  {
  }

  // Two equal pairs of inputs for which it fails.
  lemma NotCanonicalExamples()
    ensures Ratio((0, 5)) == Ratio((0, 3)) && Simplified(0, 5) != Simplified(0, 3)
    ensures Ratio((1, -1)) == Ratio((-1, 1)) && Simplified(1, -1) != Simplified(-1, 1)
  {
    ZeroAlone(5);
    ZeroAlone(3);
  }

  lemma MinusOne(c: int, d: int)
    requires c != 0 && c == -d && (c, d) != (1, -1)
    ensures Simplified(1, -1) == (1, -1) && Simplified(c, d) == (-1, 1)
  {
    SimplifiedUnit(c, d);
    assert Simplified(-1, 1) == (-1, 1);
    SimplifiedUnit(-1, 1);
    hide Gcd, Quot;
    var p := Simplified(c, d);
    Cancels(d, p.0, -p.1);
    UnitPartsUnique(p.0, p.1, -1, 1);
  }

  lemma CrossChain(p: int, q: int, a: int, b: int, c: int, d: int, r: int, s: int)
    requires a != 0 && b != 0 && c != 0 && d != 0
    requires p * b == a * q && a * d == c * b && r * d == c * s
    ensures p * s == r * q
  {
    var k := b * d * c;
    calc {
      (p * s) * (b * d * c);
      (p * b) * (c * s) * d;
      (a * q) * (r * d) * d;
      (a * d) * (q * r * d);
      (c * b) * (q * r * d);
      (r * q) * (b * d * c);
    }
    assert k != 0;
    CancelRight(p * s, r * q, k);
  }

  lemma CancelRight(x: int, y: int, k: int)
    requires k != 0 && x * k == y * k
    ensures x == y
  {
    assert (x - y) * k == 0;
  }

  // ----- exact arithmetic on the parts -----

  lemma SumOfRatios(a: int, b: int, c: int, d: int)
    requires b != 0 && d != 0
    ensures b * d != 0
    ensures Ratio((a * d + b * c, b * d)) == Ratio((a, b)) + Ratio((c, d))
    ensures Ratio((a * d - b * c, b * d)) == Ratio((a, b)) - Ratio((c, d))
  {
    var x, y := Ratio((a, b)), Ratio((c, d));
    assert x * b as real == a as real && y * d as real == c as real;
    OverProduct(x, a, b, d);
    OverProduct(y, c, d, b);
    assert (b * d) as real == b as real * d as real == d as real * b as real;
    DivideBy(x + y, a * d + b * c, b * d);
    DivideBy(x - y, a * d - b * c, b * d);
  }

  lemma OverProduct(x: real, a: int, b: int, d: int)
    requires x * b as real == a as real
    ensures x * (b as real * d as real) == (a * d) as real
  {
    assert x * (b as real * d as real) == (x * b as real) * d as real;
  }

  lemma DivideBy(x: real, n: int, d: int)
    requires d != 0 && x * d as real == n as real
    ensures Ratio((n, d)) == x
  {
  }

  lemma ProductOfRatios(a: int, b: int, c: int, d: int)
    requires b != 0 && d != 0
    ensures b * d != 0
    ensures Ratio((a * c, b * d)) == Ratio((a, b)) * Ratio((c, d))
  {
    var x, y := Ratio((a, b)), Ratio((c, d));
    assert x * b as real == a as real && y * d as real == c as real;
    assert (x * y) * (b as real * d as real) == (x * b as real) * (y * d as real);
    DivideBy(x * y, a * c, b * d);
  }

  lemma QuotientOfRatios(a: int, b: int, c: int, d: int)
    requires b != 0 && d != 0 && c != 0
    ensures b * c != 0 && Ratio((c, d)) != 0.0
    ensures Ratio((a * d, b * c)) == Ratio((a, b)) / Ratio((c, d))
  {
    var x, y := Ratio((a, b)), Ratio((c, d));
    assert x * b as real == a as real && y * d as real == c as real;
    var z := x / y;
    assert z * y == x;
    assert z * (b as real * c as real) == (z * y) * b as real * d as real;
    DivideBy(z, a * d, b * c);
  }

  // A fraction divided by itself: the second product reads the nominator the first has
  // already overwritten.
  lemma SelfQuotient(n: int, d: int)
    requires n != 0 && d != 0
    ensures d * (n * d) != 0
    ensures Ratio((n * d, d * (n * d))) == 1.0 / d as real
    ensures 1.0 / d as real == 1.0 <==> d == 1
  {
    var z := 1.0 / d as real;
    assert z * d as real == 1.0;
    Signs(n, d);
    assert n * d != 0;
    var m := n * d;
    assert (d * m) as real == d as real * m as real;
    assert z * (d as real * m as real) == (z * d as real) * m as real;
    DivideBy(z, m, d * m);
  }

  // ----- the parts after an operation, zero denominators included -----

  function Added(p: (int, int), q: (int, int)): (int, int) {
    Simplified(p.0 * q.1 + p.1 * q.0, p.1 * q.1)
  }

  function Subtracted(p: (int, int), q: (int, int)): (int, int) {
    Simplified(p.0 * q.1 - p.1 * q.0, p.1 * q.1)
  }

  function Multiplied(p: (int, int), q: (int, int)): (int, int) {
    Simplified(p.0 * q.0, p.1 * q.1)
  }

  function Divided(p: (int, int), q: (int, int)): (int, int) {
    Simplified(p.0 * q.1, p.1 * q.0)
  }

  function DividedBySelf(p: (int, int)): (int, int) {
    Simplified(p.0 * p.1, p.1 * (p.0 * p.1))
  }

  class Fraction {
    var nominator: int
    var denominator: int

    ghost function Value(): real
      requires denominator != 0
      reads this
    {
      Ratio((nominator, denominator))
    }

    ghost predicate Lowest()
      reads this
    {
      LowestParts((nominator, denominator))
    }

    constructor (nominator: int, denominator: int)
      ensures denominator != 0 ==> Lowest() && Value() == Ratio((nominator, denominator))
      ensures (this.nominator, this.denominator) == Simplified(nominator, denominator)
      ensures nominator > 0 && denominator > 0 ==> this.nominator > 0 && this.denominator > 0
      ensures nominator < 0 && denominator < 0 ==> this.nominator > 0 && this.denominator > 0
      ensures nominator < 0 < denominator || denominator < 0 < nominator ==>
        (this.nominator < 0 < this.denominator <==>
          Divisions(nominator, denominator) % 2 == 1 && (nominator, denominator) != (1, -1))
    {
      this.nominator := nominator;
      this.denominator := denominator;
      new;
      Simplify();
    }

    method Set(nominator: int, denominator: int)
      modifies this
      ensures denominator != 0 ==> Lowest() && Value() == Ratio((nominator, denominator))
      ensures (this.nominator, this.denominator) == Simplified(nominator, denominator)
      ensures nominator > 0 && denominator > 0 ==> this.nominator > 0 && this.denominator > 0
      ensures nominator < 0 && denominator < 0 ==> this.nominator > 0 && this.denominator > 0
      ensures nominator < 0 < denominator || denominator < 0 < nominator ==>
        (this.nominator < 0 < this.denominator <==>
          Divisions(nominator, denominator) % 2 == 1 && (nominator, denominator) != (1, -1))
    {
      this.nominator := nominator;
      this.denominator := denominator;
      Simplify();
    }

    static method ComputeGcd(a0: int, b0: int) returns (d: int)
      requires b0 != 0
      ensures d == Gcd(a0, b0)
      ensures d > 0 <==> if Divisions(a0, b0) % 2 == 1 then b0 > 0 else a0 > 0
      ensures a0 > 0 && b0 > 0 ==> d > 0
      ensures a0 < 0 && b0 < 0 ==> d < 0
    {
      hide Quot, Rem, Abs, Divisions;
      GcdSign(a0, b0);
      var a, b := a0, b0;
      while true
        invariant b != 0 && Gcd(a, b) == Gcd(a0, b0)
        decreases Abs(b)
      {
        QuotRem(a, b);
        a := Rem(a, b);
        if a == 0 {
          return b;
        }
        QuotRem(b, a);
        b := Rem(b, a);
        if b == 0 {
          return a;
        }
      }
    }

    // The loop condition holds at most once.
    method Simplify()
      modifies this
      ensures (nominator, denominator) == Simplified(old(nominator), old(denominator))
      ensures old(nominator > 0 && denominator > 0) ==> nominator > 0 && denominator > 0
      ensures old(nominator < 0 && denominator < 0) ==> nominator > 0 && denominator > 0
      ensures old(nominator < 0 < denominator || denominator < 0 < nominator) ==>
        (nominator < 0 < denominator <==>
          old(Divisions(nominator, denominator)) % 2 == 1 && old((nominator, denominator)) != (1, -1))
      ensures old(denominator) != 0 ==> Lowest() && Value() == old(Value())
    {
      hide Gcd, Quot, Rem, Coprime, Divides, Ratio, Divisions;
      if denominator != 0 {
        SimplifiedMeaning(nominator, denominator);
        if nominator != 0 {
          SimplifiedSign(nominator, denominator);
        }
      }
      if nominator == 0 || denominator == 0 || nominator == 1 || denominator == 1 {
        return;
      }
      ghost var n, m := nominator, denominator;
      ghost var rounds := 0;
      OneDivision(n, m);
      var d := ComputeGcd(nominator, denominator);
      if d == 1 {
        ByOne(n);
        ByOne(m);
      }
      while 1 != d
        invariant nominator != 0 && denominator != 0 && d != 0
        invariant rounds == 0 ==> nominator == n && denominator == m && d == Gcd(n, m)
        invariant rounds == 1 ==>
          d == 1 && nominator == Quot(n, Gcd(n, m)) && denominator == Quot(m, Gcd(n, m))
        invariant 0 <= rounds <= 1
        decreases 1 - rounds
      {
        nominator := Quot(nominator, d);
        denominator := Quot(denominator, d);
        d := ComputeGcd(nominator, denominator);
        rounds := rounds + 1;
      }
    }

    method Add(other: Fraction)
      modifies this
      ensures (nominator, denominator) ==
        Added((old(nominator), old(denominator)), (old(other.nominator), old(other.denominator)))
      ensures old(denominator) != 0 && old(other.denominator) != 0 ==>
        Lowest() && Value() == old(Value()) + old(other.Value())
    {
      hide Ratio, Coprime, Divides, Simplified;
      if denominator != 0 && other.denominator != 0 {
        SumOfRatios(nominator, denominator, other.nominator, other.denominator);
      }
      var tmp_nominator, tmp_denominator := nominator, denominator;
      nominator := tmp_nominator * other.denominator + tmp_denominator * other.nominator;
      denominator := denominator * other.denominator;
      Simplify();
    }

    method Substract(other: Fraction)
      modifies this
      ensures (nominator, denominator) ==
        Subtracted((old(nominator), old(denominator)), (old(other.nominator), old(other.denominator)))
      ensures old(denominator) != 0 && old(other.denominator) != 0 ==>
        Lowest() && Value() == old(Value()) - old(other.Value())
    {
      hide Ratio, Coprime, Divides, Simplified;
      if denominator != 0 && other.denominator != 0 {
        SumOfRatios(nominator, denominator, other.nominator, other.denominator);
      }
      var tmp_nominator, tmp_denominator := nominator, denominator;
      nominator := tmp_nominator * other.denominator - tmp_denominator * other.nominator;
      denominator := denominator * other.denominator;
      Simplify();
    }

    method Multiply(other: Fraction)
      modifies this
      ensures (nominator, denominator) ==
        Multiplied((old(nominator), old(denominator)), (old(other.nominator), old(other.denominator)))
      ensures old(denominator) != 0 && old(other.denominator) != 0 ==>
        Lowest() && Value() == old(Value()) * old(other.Value())
    {
      hide Ratio, Coprime, Divides, Simplified;
      if denominator != 0 && other.denominator != 0 {
        ProductOfRatios(nominator, denominator, other.nominator, other.denominator);
      }
      nominator := nominator * other.nominator;
      denominator := denominator * other.denominator;
      Simplify();
    }

    // Dividing by another fraction is exact; dividing by itself is 1 only if the
    // denominator is 1.
    method Divide(other: Fraction)
      modifies this
      ensures (nominator, denominator) ==
        if other == this then DividedBySelf((old(nominator), old(denominator)))
        else Divided((old(nominator), old(denominator)), (old(other.nominator), old(other.denominator)))
      ensures old(denominator) != 0 && old(other.denominator) != 0 && old(other.nominator) != 0 ==>
        && Lowest()
        && (other != this ==> old(other.Value()) != 0.0 && Value() == old(Value()) / old(other.Value()))
        && (other == this ==>
          Value() == 1.0 / old(denominator) as real && (Value() == 1.0 <==> old(denominator) == 1))
    {
      hide Ratio, Coprime, Divides, Simplified;
      if denominator != 0 && other.denominator != 0 && other.nominator != 0 {
        if other == this {
          SelfQuotient(nominator, denominator);
        } else {
          QuotientOfRatios(nominator, denominator, other.nominator, other.denominator);
        }
      }
      nominator := nominator * other.denominator;
      denominator := denominator * other.nominator;
      Simplify();
    }
  }

  // ----- any sequence of operations -----

  // The other operand is a new fraction, or the fraction itself.
  datatype Op =
    | SetTo(n: int, d: int)
    | Plus(n: int, d: int) | Minus(n: int, d: int) | Times(n: int, d: int) | Over(n: int, d: int)
    | PlusSelf | MinusSelf | TimesSelf | OverSelf

  function Step(p: (int, int), op: Op): (int, int) {
    match op
    case SetTo(n, d) => Simplified(n, d)
    case Plus(n, d) => Added(p, Simplified(n, d))
    case Minus(n, d) => Subtracted(p, Simplified(n, d))
    case Times(n, d) => Multiplied(p, Simplified(n, d))
    case Over(n, d) => Divided(p, Simplified(n, d))
    case PlusSelf => Added(p, p)
    case MinusSelf => Subtracted(p, p)
    case TimesSelf => Multiplied(p, p)
    case OverSelf => DividedBySelf(p)
  }

  function After(p: (int, int), ops: seq<Op>): (int, int) {
    if ops == [] then p else Step(After(p, ops[..|ops| - 1]), ops[|ops| - 1])
  }

  // The denominator after an operation is 0 exactly when one of the two is, or the divisor is
  // 0; only setting the fraction anew ends that.
  lemma ZeroDenominatorExactlyWhen(p: (int, int), op: Op)
    ensures Step(p, op).1 == 0 <==>
      match op
      case SetTo(_, d) => d == 0
      case Over(n, _) => p.1 == 0 || n == 0
      case OverSelf => p.1 == 0 || p.0 == 0
      case PlusSelf => p.1 == 0
      case MinusSelf => p.1 == 0
      case TimesSelf => p.1 == 0
      case _ => p.1 == 0 || op.d == 0
  {
    hide Simplified;
    match op
    case SetTo(n, d) => SimplifiedZero(n, d);
    case Plus(n, d) =>
      SimplifiedZero(n, d);
      var q := Simplified(n, d);
      ZeroProduct(p.1, q.1);
      SimplifiedZero(p.0 * q.1 + p.1 * q.0, p.1 * q.1);
    case Minus(n, d) =>
      SimplifiedZero(n, d);
      var q := Simplified(n, d);
      ZeroProduct(p.1, q.1);
      SimplifiedZero(p.0 * q.1 - p.1 * q.0, p.1 * q.1);
    case Times(n, d) =>
      SimplifiedZero(n, d);
      var q := Simplified(n, d);
      ZeroProduct(p.1, q.1);
      SimplifiedZero(p.0 * q.0, p.1 * q.1);
    case Over(n, d) =>
      SimplifiedZero(n, d);
      var q := Simplified(n, d);
      ZeroProduct(p.1, q.0);
      SimplifiedZero(p.0 * q.1, p.1 * q.0);
    case PlusSelf =>
      ZeroProduct(p.1, p.1);
      SimplifiedZero(p.0 * p.1 + p.1 * p.0, p.1 * p.1);
    case MinusSelf =>
      ZeroProduct(p.1, p.1);
      SimplifiedZero(p.0 * p.1 - p.1 * p.0, p.1 * p.1);
    case TimesSelf =>
      ZeroProduct(p.1, p.1);
      SimplifiedZero(p.0 * p.0, p.1 * p.1);
    case OverSelf =>
      ZeroProduct(p.0, p.1);
      ZeroProduct(p.1, p.0 * p.1);
      SimplifiedZero(p.0 * p.1, p.1 * (p.0 * p.1));
  }

  // What the parts are then: as multiplied out, never reduced.
  lemma ZeroDenominatorParts(a: int, b: int, c: int, d: int)
    ensures Added((a, 0), (c, d)) == Subtracted((a, 0), (c, d)) == (a * d, 0)
    ensures Added((a, b), (c, 0)) == (b * c, 0) && Subtracted((a, b), (c, 0)) == (-(b * c), 0)
    ensures Multiplied((a, 0), (c, d)) == Multiplied((c, d), (a, 0)) == (a * c, 0)
    ensures Divided((a, 0), (c, d)) == (a * d, 0) && Divided((a, b), (0, d)) == (a * d, 0)
    ensures DividedBySelf((a, 0)) == DividedBySelf((0, b)) == (0, 0)
  {
  }

  lemma ZeroProduct(a: int, b: int)
    ensures a * b == 0 <==> a == 0 || b == 0
  {
  }

  lemma SimplifiedZero(n: int, d: int)
    ensures Simplified(n, d).0 == 0 <==> n == 0
    ensures Simplified(n, d).1 == 0 <==> d == 0
  {
    if d != 0 {
      SimplifiedMeaning(n, d);
    }
  }

  // Exact arithmetic has a result.
  predicate Meaningful(p: (int, int), op: Op) {
    match op
    case SetTo(_, d) => d != 0
    case Over(n, d) => n != 0 && d != 0
    case PlusSelf => true
    case MinusSelf => true
    case TimesSelf => true
    case OverSelf => p.0 != 0
    case _ => op.d != 0
  }

  // Exact rational arithmetic.
  ghost function Exact(v: real, op: Op): real {
    match op
    case SetTo(n, d) => Quotient(n, d)
    case Plus(n, d) => v + Quotient(n, d)
    case Minus(n, d) => v - Quotient(n, d)
    case Times(n, d) => v * Quotient(n, d)
    case Over(n, d) => v * Quotient(d, n)
    case PlusSelf => v + v
    case MinusSelf => v - v
    case TimesSelf => v * v
    case OverSelf => 1.0
  }

  ghost function Quotient(n: int, d: int): real {
    if d == 0 then 0.0 else Ratio((n, d))
  }

  // An operation gives the exact result in lowest terms, except for a division by itself, which
  // does so exactly when the denominator is 1.
  lemma StepExactExactlyWhen(p: (int, int), op: Op)
    requires LowestParts(p) && Meaningful(p, op)
    ensures LowestParts(Step(p, op))
    ensures Ratio(Step(p, op)) == Exact(Ratio(p), op) <==> (op.OverSelf? ==> p.1 == 1)
  {
    hide Simplified, Ratio, Coprime;
    var a, b := p.0, p.1;
    match op
    case SetTo(n, d) => LowestSimplified(n, d);
    case Plus(n, d) => StepSum(a, b, n, d);
    case Minus(n, d) => StepSum(a, b, n, d);
    case Times(n, d) => StepProduct(a, b, n, d);
    case Over(n, d) => StepQuotient(a, b, n, d);
    case PlusSelf => SumOfRatios(a, b, a, b); LowestSimplified(a * b + b * a, b * b);
    case MinusSelf => SumOfRatios(a, b, a, b); LowestSimplified(a * b - b * a, b * b);
    case TimesSelf => ProductOfRatios(a, b, a, b); LowestSimplified(a * a, b * b);
    case OverSelf => SelfQuotient(a, b); LowestSimplified(a * b, b * (a * b));
  }

  lemma StepSum(a: int, b: int, n: int, d: int)
    requires b != 0 && d != 0
    ensures var p, q := Added((a, b), Simplified(n, d)), Subtracted((a, b), Simplified(n, d));
      && LowestParts(p) && Ratio(p) == Ratio((a, b)) + Ratio((n, d))
      && LowestParts(q) && Ratio(q) == Ratio((a, b)) - Ratio((n, d))
  {
    hide Simplified, Ratio, Coprime;
    SimplifiedMeaning(n, d);
    var q := Simplified(n, d);
    SumOfRatios(a, b, q.0, q.1);
    LowestSimplified(a * q.1 + b * q.0, b * q.1);
    LowestSimplified(a * q.1 - b * q.0, b * q.1);
  }

  lemma StepProduct(a: int, b: int, n: int, d: int)
    requires b != 0 && d != 0
    ensures var p := Multiplied((a, b), Simplified(n, d));
      LowestParts(p) && Ratio(p) == Ratio((a, b)) * Ratio((n, d))
  {
    hide Simplified, Ratio, Coprime;
    SimplifiedMeaning(n, d);
    var q := Simplified(n, d);
    ProductOfRatios(a, b, q.0, q.1);
    LowestSimplified(a * q.0, b * q.1);
  }

  lemma StepQuotient(a: int, b: int, n: int, d: int)
    requires b != 0 && n != 0 && d != 0
    ensures var p := Divided((a, b), Simplified(n, d));
      LowestParts(p) && Ratio(p) == Ratio((a, b)) * Ratio((d, n))
  {
    hide Simplified, Ratio, Coprime;
    SimplifiedMeaning(n, d);
    var q := Simplified(n, d);
    Flipped(n, d, q.0, q.1);
    ProductOfRatios(a, b, q.1, q.0);
    LowestSimplified(a * q.1, b * q.0);
  }

  lemma Flipped(n: int, d: int, p: int, q: int)
    requires n != 0 && d != 0 && p != 0 && q != 0 && Ratio((p, q)) == Ratio((n, d))
    ensures Ratio((q, p)) == Ratio((d, n))
  {
    CrossEqual(p, q, n, d);
    CrossEqual(q, p, d, n);
  }

  ghost function ExactAfter(v: real, ops: seq<Op>): real {
    if ops == [] then v else Exact(ExactAfter(v, ops[..|ops| - 1]), ops[|ops| - 1])
  }

  predicate AllMeaningful(p: (int, int), ops: seq<Op>) {
    forall i :: 0 <= i < |ops| ==> Meaningful(After(p, ops[..i]), ops[i])
  }

  ghost predicate ExactBy(p: (int, int), ops: seq<Op>) {
    p.1 != 0 && After(p, ops).1 != 0 && Ratio(After(p, ops)) == ExactAfter(Ratio(p), ops)
  }

  lemma {:induction false} RunLowest(p: (int, int), ops: seq<Op>)
    requires LowestParts(p) && AllMeaningful(p, ops)
    ensures LowestParts(After(p, ops))
  {
    hide LowestParts, Meaningful, Step;
    if ops != [] {
      var before := ops[..|ops| - 1];
      assert forall i :: 0 <= i < |before| ==> before[..i] == ops[..i];
      RunLowest(p, before);
      StepExactExactlyWhen(After(p, before), ops[|ops| - 1]);
    }
  }

  lemma OneMoreExact(p: (int, int), ops: seq<Op>)
    requires LowestParts(p) && AllMeaningful(p, ops) && ops != []
    ensures var n := |ops| - 1;
      ExactBy(p, ops[..n]) ==> (ExactBy(p, ops) <==> (ops[n].OverSelf? ==> After(p, ops[..n]).1 == 1))
  {
    hide Meaningful, Step, Exact, Ratio, Coprime;
    var n := |ops| - 1;
    var before := ops[..n];
    assert forall i :: 0 <= i < n ==> before[..i] == ops[..i];
    RunLowest(p, before);
    StepExactExactlyWhen(After(p, before), ops[n]);
  }

  // Along a run the parts hold the exact value after every operation exactly when no division
  // by itself is done with a denominator other than 1.
  lemma {:induction false} RunExactExactlyWhen(p: (int, int), ops: seq<Op>)
    requires LowestParts(p) && AllMeaningful(p, ops)
    ensures (forall n :: 0 <= n <= |ops| ==> ExactBy(p, ops[..n]))
      <==> (forall i :: 0 <= i < |ops| ==> ops[i].OverSelf? ==> After(p, ops[..i]).1 == 1)
  {
    hide LowestParts, Meaningful, Step, After, ExactBy;
    assert ops[..|ops|] == ops;
    if ops == [] {
      NothingExact(p);
    } else {
      var n := |ops| - 1;
      var before := ops[..n];
      assert forall i :: 0 <= i <= n ==> before[..i] == ops[..i];
      RunExactExactlyWhen(p, before);
      OneMoreExact(p, ops);
    }
  }

  lemma NothingExact(p: (int, int))
    requires LowestParts(p)
    ensures ExactBy(p, [])
  {
  }

  // What the operations do to the object, whatever its parts are.
  method Perform(f: Fraction, op: Op)
    modifies f
    ensures (f.nominator, f.denominator) == Step((old(f.nominator), old(f.denominator)), op)
  {
    hide Ratio, Simplified, Coprime;
    match op
    case SetTo(n, d) => f.Set(n, d);
    case Plus(n, d) => var g := new Fraction(n, d); f.Add(g);
    case Minus(n, d) => var g := new Fraction(n, d); f.Substract(g);
    case Times(n, d) => var g := new Fraction(n, d); f.Multiply(g);
    case Over(n, d) => var g := new Fraction(n, d); f.Divide(g);
    case PlusSelf => f.Add(f);
    case MinusSelf => f.Substract(f);
    case TimesSelf => f.Multiply(f);
    case OverSelf => f.Divide(f);
  }

  // After any sequence of operations the parts hold the exact value in lowest terms, as long
  // as it has one and no division by itself comes in between.
  method Run(f: Fraction, ops: seq<Op>)
    modifies f
    ensures var p := (old(f.nominator), old(f.denominator));
      && (f.nominator, f.denominator) == After(p, ops)
      && (LowestParts(p) && AllMeaningful(p, ops) ==>
        && LowestParts((f.nominator, f.denominator))
        && ((forall i :: 0 <= i < |ops| ==> ops[i].OverSelf? ==> After(p, ops[..i]).1 == 1) ==>
          f.Value() == ExactAfter(Ratio(p), ops)))
  {
    hide Ratio, Coprime, Step, Exact, ExactAfter, AllMeaningful;
    ghost var p := (f.nominator, f.denominator);
    if LowestParts(p) && AllMeaningful(p, ops) {
      RunLowest(p, ops);
      RunExactExactlyWhen(p, ops);
    }
    assert ops[..0] == [];
    for i := 0 to |ops|
      invariant (f.nominator, f.denominator) == After(p, ops[..i])
    {
      assert ops[..i + 1][..i] == ops[..i];
      Perform(f, ops[i]);
    }
    assert ops[..|ops|] == ops;
  }
}
