// Polynomials over GF(2) and their long division, as the reference for the two
// cyclic redundancy checks.
module Polynomials {

  // Coefficients, the highest power first. Leading zeros are allowed.
  type Poly = seq<bool>

  // A coefficient, zero outside.
  function At(p: Poly, i: int): bool {
    0 <= i < |p| && p[i]
  }

  // A coefficient of the product, counted from its highest power: the sum of
  // the products q[k] d[i - k].
  function ProductAt(q: Poly, d: Poly, i: int): bool {
    if q == [] then false
    else
      var k := |q| - 1;
      ProductAt(q[..k], d, i) != (q[k] && At(d, i - k))
  }

  // The sum of the given powers of x, with coefficients from n down.
  function Powers(exponents: set<nat>, n: nat): (p: Poly)
    ensures |p| == n + 1
  {
    [n in exponents] + if n == 0 then [] else Powers(exponents, n - 1)
  }

  function Zeros(n: nat): (p: Poly)
    ensures |p| == n && forall i | 0 <= i < n :: !p[i]
  {
    seq(n, _ => false)
  }

  // m == q d + r for some q, where r has a lower degree than d.
  ghost predicate IsRemainder(r: Poly, m: Poly, d: Poly) {
    |r| == |d| - 1 && exists q :: Quotient(q, r, m, d)
  }

  ghost predicate Quotient(q: Poly, r: Poly, m: Poly, d: Poly) {
    && |m| == |q| + |r|
    && forall i | 0 <= i < |m| :: m[i] == (ProductAt(q, d, i) != At(r, i - |q|))
  }

  // ---------- There is only one remainder ----------

  lemma {:induction false} SameQuotient(p: Poly, q: Poly, d: Poly)
    requires |d| > 0 && d[0] && |p| == |q|
    requires forall i | 0 <= i < |q| :: ProductAt(p, d, i) == ProductAt(q, d, i)
    ensures p == q
  {
    if q != [] {
      var k := |q| - 1;
      forall i | 0 <= i < k
        ensures ProductAt(p[..k], d, i) == ProductAt(q[..k], d, i)
      {
        assert ProductAt(p, d, i) == ProductAt(q, d, i);
      }
      SameQuotient(p[..k], q[..k], d);
      assert ProductAt(p, d, k) == ProductAt(q, d, k);
      assert p == p[..k] + [p[k]] && q == q[..k] + [q[k]];
    }
  }

  lemma RemainderIsUnique(r: Poly, s: Poly, m: Poly, d: Poly)
    requires |d| > 0 && d[0] && IsRemainder(r, m, d) && IsRemainder(s, m, d)
    ensures r == s
  {
    var p :| Quotient(p, r, m, d);
    var q :| Quotient(q, s, m, d);
    forall i | 0 <= i < |q|
      ensures ProductAt(p, d, i) == ProductAt(q, d, i)
    {
      assert m[i] == ProductAt(p, d, i) && m[i] == ProductAt(q, d, i);
    }
    SameQuotient(p, q, d);
    forall i | 0 <= i < |r|
      ensures r[i] == s[i]
    {
      var j := |q| + i;
      assert m[j] == (ProductAt(p, d, j) != r[i]) && m[j] == (ProductAt(q, d, j) != s[i]);
    }
  }

  // ---------- Adding to the end of a dividend ----------

  function Sum(a: Poly, b: Poly): (p: Poly)
    requires |a| == |b|
    ensures |p| == |a| && forall i | 0 <= i < |p| :: p[i] == (a[i] != b[i])
  {
    seq(|a|, i requires 0 <= i < |a| => a[i] != b[i])
  }

  // What is added to the last coefficients is added to the remainder.
  lemma SumOfRemainders(m: Poly, r: Poly, t: Poly, d: Poly)
    requires |t| == |r| && IsRemainder(r, m + Zeros(|r|), d)
    ensures IsRemainder(Sum(r, t), m + t, d)
  {
    var q :| Quotient(q, r, m + Zeros(|r|), d);
    forall i | 0 <= i < |m + t|
      ensures (m + t)[i] == (ProductAt(q, d, i) != At(Sum(r, t), i - |q|))
    {
      assert (m + Zeros(|r|))[i] == (ProductAt(q, d, i) != At(r, i - |q|));
    }
    assert Quotient(q, Sum(r, t), m + t, d);
  }

  lemma SumIsZero(r: Poly, t: Poly)
    requires |r| == |t| && Sum(r, t) == Zeros(|r|)
    ensures r == t
  {
    forall i | 0 <= i < |r|
      ensures r[i] == t[i]
    {
      assert !Zeros(|r|)[i] && Sum(r, t)[i] == (r[i] != t[i]);
    }
  }

  // ---------- A register that divides ----------

  // One more coefficient of the dividend meets the register at its top.
  function DivideStep(r: Poly, bit: bool, d: Poly): (s: Poly)
    requires |d| == |r| + 1
    ensures |s| == |r|
  {
    seq(|r|, i requires 0 <= i < |r| => At(r, i + 1) != (At(r, 0) != bit && d[i + 1]))
  }

  function Divide(r: Poly, bits: Poly, d: Poly): (s: Poly)
    requires |d| == |r| + 1
    ensures |s| == |r|
  {
    if bits == [] then r
    else DivideStep(Divide(r, bits[..|bits| - 1], d), bits[|bits| - 1], d)
  }

  // The bits, with room for the remainder, and the first register added to
  // their front.
  function Dividend(r: Poly, bits: Poly): (m: Poly)
    ensures |m| == |bits| + |r|
  {
    seq(|bits| + |r|, i requires 0 <= i < |bits| + |r| => At(bits, i) != At(r, i))
  }

  lemma {:induction false} DivideIsRemainder(r: Poly, bits: Poly, d: Poly)
    requires |d| == |r| + 1 && |r| > 0 && d[0]
    ensures IsRemainder(Divide(r, bits, d), Dividend(r, bits), d)
  {
    if bits == [] {
      assert Quotient([], r, Dividend(r, []), d);
    } else {
      hide Quotient, Dividend;
      var k := |bits| - 1;
      DivideIsRemainder(r, bits[..k], d);
      var s := Divide(r, bits[..k], d);
      var q :| Quotient(q, s, Dividend(r, bits[..k]), d);
      OneMoreStep(q, s, bits[k], Dividend(r, bits[..k]), Dividend(r, bits), d) by {
        OneMoreBit(r, bits);
      }
    }
  }

  // m x + bit x^n has the quotient q x + t.
  lemma OneMoreStep(q: Poly, s: Poly, bit: bool, m: Poly, longer: Poly, d: Poly)
    requires |d| == |s| + 1 && |s| > 0 && d[0] && Quotient(q, s, m, d)
    requires |longer| == |m| + 1
    requires forall i | 0 <= i < |longer| :: longer[i] == (At(m, i) != (i == |m| - |s| && bit))
    ensures Quotient(q + [s[0] != bit], DivideStep(s, bit, d), longer, d)
  {
    var t, n := s[0] != bit, |q|;
    hide ProductAt, DivideStep;
    forall i | 0 <= i < |longer|
      ensures longer[i] == (ProductAt(q + [t], d, i) != At(DivideStep(s, bit, d), i - (n + 1)))
    {
      OneMoreTerm(q, t, d, i);
      StepAt(s, bit, d, i - (n + 1));
      if i < |m| {
        assert m[i] == (ProductAt(q, d, i) != At(s, i - n));
      } else {
        BeyondProduct(q, d, i);
      }
    }
  }

  lemma StepAt(s: Poly, bit: bool, d: Poly, i: int)
    requires |d| == |s| + 1 && |s| > 0
    ensures At(DivideStep(s, bit, d), i) == (0 <= i < |s| && (At(s, i + 1) != (s[0] != bit && At(d, i + 1))))
  {
  }

  lemma OneMoreTerm(q: Poly, t: bool, d: Poly, i: int)
    ensures ProductAt(q + [t], d, i) == (ProductAt(q, d, i) != (t && At(d, i - |q|)))
  {
    assert (q + [t])[..|q|] == q;
  }

  lemma {:induction false} BeyondProduct(q: Poly, d: Poly, i: int)
    requires i >= |q| + |d| - 1
    ensures !ProductAt(q, d, i)
  {
    if q != [] {
      BeyondProduct(q[..|q| - 1], d, i);
    }
  }

  lemma OneMoreBit(r: Poly, bits: Poly)
    requires bits != []
    ensures var k := |bits| - 1;
      var m, longer := Dividend(r, bits[..k]), Dividend(r, bits);
      forall i | 0 <= i < |longer| :: longer[i] == (At(m, i) != (i == k && bits[k]))
  {
  }

  lemma ZeroDividend(bits: Poly, n: nat)
    ensures Dividend(Zeros(n), bits) == bits + Zeros(n)
  {
  }

  // A sequence, and the same without its first and without its last bit.
  lemma NextAt(whole: Poly, front: Poly, back: Poly, first: bool, last: bool, i: nat)
    requires |front| == |back| && i < |back| && !last
    requires whole == [first] + back && whole == front + [last]
    ensures back[i] == At(front, i + 1)
  {
    assert whole[i + 1] == back[i];
  }

  // ---------- Sums of powers ----------

  lemma {:induction false} PowersAt(exponents: set<nat>, n: nat, i: nat)
    requires i <= n
    ensures Powers(exponents, n)[i] <==> n - i in exponents
  {
    if i > 0 {
      PowersAt(exponents, n - 1, i - 1);
    }
  }

  lemma FirstPower(e: set<nat>, n: nat)
    requires n > 0
    ensures Powers(e, n) == [n in e] + Powers(e, n - 1)
  {
  }
}
