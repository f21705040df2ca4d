/**
 Polynomials over GF(2), in the form the definition of a CRC needs them.

 A polynomial is the finite set of the exponents whose coefficient is one, so
 every polynomial has exactly one representation and addition is symmetric
 difference.
 */
module Gf2 {

  type Poly = set<nat>

  const ZERO: Poly := {}

  function Add(a: Poly, b: Poly): Poly {
    (a - b) + (b - a)
  }

  /** x * a */
  function TimesX(a: Poly): Poly {
    set d | d in a :: d + 1
  }

  /** The coefficient of x^d in the list s, which is written highest degree first. */
  predicate Coefficient(s: seq<bool>, d: nat) {
    d < |s| && s[|s| - 1 - d]
  }

  /** The polynomial whose coefficients are s, highest degree first. */
  function Of(s: seq<bool>): Poly {
    set d: nat | d < |s| && Coefficient(s, d)
  }

  /** The product q * g, where q lists its coefficients highest degree first (Horner's scheme). */
  function Product(q: seq<bool>, g: Poly): Poly {
    if q == [] then ZERO
    else
      var high := TimesX(Product(q[..|q| - 1], g));
      if q[|q| - 1] then Add(high, g) else high
  }

  /** Every exponent of a is below n. */
  ghost predicate DegreeBelow(a: Poly, n: nat) {
    forall d :: d in a ==> d < n
  }

  /** g is a polynomial of degree exactly n. */
  ghost predicate HasDegree(g: Poly, n: nat) {
    n in g && DegreeBelow(g, n + 1)
  }

  ghost predicate Divides(g: Poly, a: Poly) {
    exists q: seq<bool> :: a == Product(q, g)
  }

  /** r is what is left of a after division by g, a polynomial of degree n. */
  ghost predicate IsRemainder(a: Poly, g: Poly, n: nat, r: Poly) {
    && DegreeBelow(r, n)
    && exists q: seq<bool> :: a == Add(Product(q, g), r)
  }

  function Zeros(n: nat): (s: seq<bool>)
    ensures |s| == n && forall i :: 0 <= i < n ==> !s[i]
  {
    seq(n, i => false)
  }

  /** Coefficientwise sum of two coefficient lists of one length. */
  function Xor(a: seq<bool>, b: seq<bool>): (s: seq<bool>)
    requires |a| == |b|
    ensures |s| == |a| && forall i :: 0 <= i < |a| ==> s[i] == (a[i] != b[i])
  {
    seq(|a|, i requires 0 <= i < |a| => a[i] != b[i])
  }

  // ----- addition and multiplication by x ---------------------------------

  lemma AddLaws(a: Poly, b: Poly, c: Poly)
    ensures Add(a, b) == Add(b, a)
    ensures Add(Add(a, b), c) == Add(a, Add(b, c))
    ensures Add(a, a) == ZERO && Add(a, ZERO) == a && Add(ZERO, a) == a
  {
  }

  lemma CancelRight(a: Poly, b: Poly)
    ensures Add(Add(a, b), b) == a
  {
  }

  lemma TimesXMember(a: Poly, d: nat)
    ensures d in TimesX(a) <==> d > 0 && d - 1 in a
  {
    if d > 0 && d - 1 in a {
      assert (d - 1) + 1 in TimesX(a);
    }
  }

  lemma TimesXAdd(a: Poly, b: Poly)
    ensures TimesX(Add(a, b)) == Add(TimesX(a), TimesX(b))
  {
    forall d: nat
      ensures d in TimesX(Add(a, b)) <==> d in Add(TimesX(a), TimesX(b))
    {
      TimesXMember(a, d);
      TimesXMember(b, d);
      TimesXMember(Add(a, b), d);
    }
  }

  lemma TimesXInjective(a: Poly, b: Poly)
    requires TimesX(a) == TimesX(b)
    ensures a == b
  {
    forall d: nat
      ensures d in a <==> d in b
    {
      TimesXMember(a, d + 1);
      TimesXMember(b, d + 1);
    }
  }

  // ----- coefficient lists ---------------------------------------------------

  /** Appending a coefficient multiplies by x and adds it as the constant term. */
  lemma OfSnoc(s: seq<bool>, b: bool)
    ensures Of(s + [b]) == if b then Add(TimesX(Of(s)), {0}) else TimesX(Of(s))
  {
    forall d: nat
      ensures d in Of(s + [b]) <==> d in if b then Add(TimesX(Of(s)), {0}) else TimesX(Of(s))
    {
      TimesXMember(Of(s), d);
      if d > 0 {
        assert d in Of(s + [b]) <==> d - 1 in Of(s);
      }
    }
  }

  lemma OfXor(a: seq<bool>, b: seq<bool>)
    requires |a| == |b|
    ensures Of(Xor(a, b)) == Add(Of(a), Of(b))
  {
  }

  lemma OfDegree(s: seq<bool>)
    ensures DegreeBelow(Of(s), |s|)
  {
  }

  /** Leading zero coefficients do not change a product. */
  lemma {:induction false} ProductPad(n: nat, q: seq<bool>, g: Poly)
    ensures Product(Zeros(n) + q, g) == Product(q, g)
    decreases n + |q|
  {
    if q == [] {
      assert Zeros(n) + q == Zeros(n);
      if n > 0 {
        assert Zeros(n)[..n - 1] == Zeros(n - 1) + [];
        ProductPad(n - 1, [], g);
      }
    } else {
      var p := Zeros(n) + q;
      assert p[..|p| - 1] == Zeros(n) + q[..|q| - 1];
      ProductPad(n, q[..|q| - 1], g);
    }
  }

  lemma {:induction false} ProductXor(p: seq<bool>, q: seq<bool>, g: Poly)
    requires |p| == |q|
    ensures Product(Xor(p, q), g) == Add(Product(p, g), Product(q, g))
    decreases |p|
  {
    if p == [] {
    } else {
      var n := |p| - 1;
      var x := Xor(p, q);
      assert x[..n] == Xor(p[..n], q[..n]);
      ProductXor(p[..n], q[..n], g);
      TimesXAdd(Product(p[..n], g), Product(q[..n], g));
    }
  }

  /** A product by a quotient with leading coefficient one has the expected degree. */
  lemma {:induction false} ProductDegree(q: seq<bool>, g: Poly, n: nat)
    requires HasDegree(g, n)
    requires q != [] && q[0]
    ensures HasDegree(Product(q, g), |q| - 1 + n)
    decreases |q|
  {
    var m := |q| - 1;
    var high := TimesX(Product(q[..m], g));
    if m == 0 {
      assert Product(q[..m], g) == ZERO;
      assert Product(q, g) == g;
    } else {
      ProductDegree(q[..m], g, n);
      forall d: nat
        ensures d in high <==> d > 0 && d - 1 in Product(q[..m], g)
      {
        TimesXMember(Product(q[..m], g), d);
      }
      assert HasDegree(high, m + n);
    }
  }

  /** A multiple of g whose degree is below that of g is zero. */
  lemma {:induction false} SmallMultipleIsZero(q: seq<bool>, g: Poly, n: nat)
    requires HasDegree(g, n)
    requires DegreeBelow(Product(q, g), n)
    ensures Product(q, g) == ZERO
    decreases |q|
  {
    if q == [] {
    } else {
      if q[0] {
        ProductDegree(q, g, n);
        assert false;
      } else {
        assert q == Zeros(1) + q[1..];
        ProductPad(1, q[1..], g);
        SmallMultipleIsZero(q[1..], g, n);
      }
    }
  }

  /** Multiples of g are closed under addition. */
  lemma DividesAdd(g: Poly, a: Poly, b: Poly)
    requires Divides(g, a) && Divides(g, b)
    ensures Divides(g, Add(a, b))
  {
    var p: seq<bool> :| a == Product(p, g);
    var q: seq<bool> :| b == Product(q, g);
    var p', q' := Zeros(|q|) + p, Zeros(|p|) + q;
    ProductPad(|q|, p, g);
    ProductPad(|p|, q, g);
    ProductXor(p', q', g);
    assert Add(a, b) == Product(Xor(p', q'), g);
  }

  /** Division by g leaves at most one remainder. */
  lemma RemainderUnique(a: Poly, g: Poly, n: nat, r: Poly, r': Poly)
    requires HasDegree(g, n)
    requires IsRemainder(a, g, n, r) && IsRemainder(a, g, n, r')
    ensures r == r'
  {
    var q: seq<bool> :| a == Add(Product(q, g), r);
    var q': seq<bool> :| a == Add(Product(q', g), r');
    DividesAdd(g, Product(q, g), Product(q', g));
    assert Add(Product(q, g), Product(q', g)) == Add(r, r');
    var p: seq<bool> :| Add(r, r') == Product(p, g);
    SmallMultipleIsZero(p, g, n);
    CancelRight(r, r');
  }

  /** Equal remainders mean a difference divisible by g, and conversely. */
  lemma EqualRemaindersIffDivides(a: Poly, a': Poly, g: Poly, n: nat, r: Poly, r': Poly)
    requires HasDegree(g, n)
    requires IsRemainder(a, g, n, r) && IsRemainder(a', g, n, r')
    ensures r == r' <==> Divides(g, Add(a, a'))
  {
    var q: seq<bool> :| a == Add(Product(q, g), r);
    var q': seq<bool> :| a' == Add(Product(q', g), r');
    var multiple := Add(Product(q, g), Product(q', g));
    DividesAdd(g, Product(q, g), Product(q', g));
    assert Add(a, a') == Add(multiple, Add(r, r'));
    if r == r' {
      AddLaws(r, r, r);
      assert Add(a, a') == multiple;
    }
    if Divides(g, Add(a, a')) {
      DividesAdd(g, multiple, Add(a, a'));
      assert Add(multiple, Add(a, a')) == Add(r, r');
      var p: seq<bool> :| Add(r, r') == Product(p, g);
      SmallMultipleIsZero(p, g, n);
      CancelRight(r, r');
    }
  }

  // ----- multiplication by x does not help divisibility --------------------

  function TimesXn(a: Poly, n: nat): Poly {
    if n == 0 then a else TimesX(TimesXn(a, n - 1))
  }

  lemma {:induction false} OfZeros(s: seq<bool>, n: nat)
    ensures Of(s + Zeros(n)) == TimesXn(Of(s), n)
    decreases n
  {
    if n == 0 {
      assert s + Zeros(n) == s;
    } else {
      assert s + Zeros(n) == (s + Zeros(n - 1)) + [false];
      OfSnoc(s + Zeros(n - 1), false);
      OfZeros(s, n - 1);
    }
  }

  /** If g has a constant term, g divides x * a exactly when it divides a. */
  lemma DividesTimesX(g: Poly, a: Poly)
    requires 0 in g
    ensures Divides(g, TimesX(a)) <==> Divides(g, a)
  {
    if Divides(g, a) {
      var q: seq<bool> :| a == Product(q, g);
      assert (q + [false])[..|q|] == q;
      assert TimesX(a) == Product(q + [false], g);
    }
    if Divides(g, TimesX(a)) {
      var q: seq<bool> :| TimesX(a) == Product(q, g);
      if q == [] {
        assert Product([], g) == ZERO;
        TimesXInjective(a, ZERO);
      } else {
        var high := Product(q[..|q| - 1], g);
        TimesXMember(a, 0);
        TimesXMember(high, 0);
        TimesXInjective(a, high);
      }
    }
  }

  lemma {:induction false} DividesTimesXn(g: Poly, a: Poly, n: nat)
    requires 0 in g
    ensures Divides(g, TimesXn(a, n)) <==> Divides(g, a)
    decreases n
  {
    if n == 0 {
    } else {
      DividesTimesX(g, TimesXn(a, n - 1));
      DividesTimesXn(g, a, n - 1);
    }
  }
}
