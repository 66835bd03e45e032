/** Polynomials over GF(2): entry k of the sequence is the coefficient of x^k. */
module Gf2 {

  type Poly = seq<bool>

  function Coeff(p: Poly, k: nat): bool {
    k < |p| && p[k]
  }

  /** Equality up to leading zero coefficients. */
  ghost predicate Same(p: Poly, q: Poly) {
    forall k: nat :: Coeff(p, k) == Coeff(q, k)
  }

  function Add(p: Poly, q: Poly): (r: Poly)
    ensures |r| == if |p| < |q| then |q| else |p|
    ensures forall k: nat :: Coeff(r, k) == (Coeff(p, k) != Coeff(q, k))
  {
    seq(if |p| < |q| then |q| else |p|, k requires k >= 0 => Coeff(p, k) != Coeff(q, k))
  }

  function Scale(a: bool, p: Poly): (r: Poly)
    ensures forall k: nat :: Coeff(r, k) == (a && Coeff(p, k))
  {
    if a then p else []
  }

  /** Multiplication by x. */
  function Up(p: Poly): (r: Poly)
    ensures forall k: nat :: Coeff(r, k) == (k > 0 && Coeff(p, k - 1))
  {
    [false] + p
  }

  /** Schoolbook product. */
  function Mul(p: Poly, g: Poly): Poly {
    if p == [] then [] else Add(Scale(p[0], g), Up(Mul(p[1..], g)))
  }

  /** r is what remains of d after subtracting some multiple of g. */
  ghost predicate Congruent(d: Poly, g: Poly, r: Poly) {
    exists q: Poly :: Same(d, Add(Mul(q, g), r))
  }

  lemma MulCoeff(p: Poly, g: Poly, k: nat)
    requires p != []
    ensures Coeff(Mul(p, g), k) == ((p[0] && Coeff(g, k)) != (k > 0 && Coeff(Mul(p[1..], g), k - 1)))
  {
  }

  lemma AddTail(p: Poly, q: Poly)
    requires p != [] && q != []
    ensures Add(p, q)[1..] == Add(p[1..], q[1..])
  {
  }

  lemma {:induction false} MulDistributes(p: Poly, q: Poly, g: Poly)
    ensures Same(Mul(Add(p, q), g), Add(Mul(p, g), Mul(q, g)))
  {
    if p == [] {
      assert Add(p, q) == q by { Extensional(Add(p, q), q); }
    } else if q == [] {
      assert Add(p, q) == p by { Extensional(Add(p, q), p); }
    } else {
      var s := Add(p, q);
      MulDistributes(p[1..], q[1..], g);
      assert s[1..] == Add(p[1..], q[1..]) by { AddTail(p, q); }
      assert s[0] == (p[0] != q[0]);
      forall k: nat ensures Coeff(Mul(s, g), k) == (Coeff(Mul(p, g), k) != Coeff(Mul(q, g), k)) {
        MulCoeff(s, g, k);
        MulCoeff(p, g, k);
        MulCoeff(q, g, k);
        if k > 0 {
          hide Mul;
          assert Coeff(Mul(s[1..], g), k - 1) == Coeff(Add(Mul(p[1..], g), Mul(q[1..], g)), k - 1);
        }
      }
    }
  }

  lemma Extensional(p: Poly, q: Poly)
    requires |p| == |q| && Same(p, q)
    ensures p == q
  {
    forall k | 0 <= k < |p| ensures p[k] == q[k] {
      assert Coeff(p, k) == Coeff(q, k);
    }
  }

  /** A multiple of a polynomial of degree n has degree at least n, unless it is zero. */
  lemma {:induction false} MultipleDegree(p: Poly, g: Poly, n: nat)
    requires |g| == n + 1 && g[n]
    requires forall k: nat :: k >= n ==> !Coeff(Mul(p, g), k)
    ensures Same(Mul(p, g), [])
  {
    if p != [] {
      var m := Mul(p[1..], g);
      forall k: nat | k >= n ensures !Coeff(m, k) {
        assert Coeff(Mul(p, g), k + 1) == (Coeff(Scale(p[0], g), k + 1) != Coeff(Up(m), k + 1));
      }
      MultipleDegree(p[1..], g, n);
      assert Coeff(Mul(p, g), n) == (Coeff(Scale(p[0], g), n) != Coeff(Up(m), n));
    }
  }

  /** Division by a polynomial of degree n leaves at most one remainder of degree below n. */
  lemma RemainderUnique(d: Poly, g: Poly, n: nat, r: Poly, s: Poly)
    requires |g| == n + 1 && g[n] && |r| == n && |s| == n
    requires Congruent(d, g, r) && Congruent(d, g, s)
    ensures r == s
  {
    var p: Poly :| Same(d, Add(Mul(p, g), r));
    var q: Poly :| Same(d, Add(Mul(q, g), s));
    MulDistributes(p, q, g);
    var m := Mul(Add(p, q), g);
    forall k: nat ensures Coeff(m, k) == (Coeff(r, k) != Coeff(s, k)) {
      assert Coeff(d, k) == (Coeff(Mul(p, g), k) != Coeff(r, k));
      assert Coeff(d, k) == (Coeff(Mul(q, g), k) != Coeff(s, k));
    }
    MultipleDegree(Add(p, q), g, n);
    Extensional(r, s);
  }
}
