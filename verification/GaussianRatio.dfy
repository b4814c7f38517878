/**
 The coefficients of the product of x + q^i for i below n, in any field in which every element is its
 own negative: the ratio of neighbours, as for Gaussian binomial coefficients, and from it that no
 coefficient is zero while the powers of q differ.
 */
module GaussianRatio {
  /** Addition, multiplication and the powers of one element. */
  datatype Field<!F> = Field(zero: F, one: F, add: (F, F) -> F, mul: (F, F) -> F, pow: nat -> F)

  // The laws are put to use by naming the elements they are about.
  predicate Two<F>(x: F, y: F) { true }

  predicate Three<F>(x: F, y: F, z: F) { true }

  /** What the argument needs of a field in which every element is its own negative. */
  ghost predicate Lawful<F(!new)>(f: Field<F>) {
    && f.pow(0) == f.one
    && (forall i: nat, j: nat :: f.mul(f.pow(i), f.pow(j)) == f.pow(i + j))
    && (forall x: F :: f.mul(x, f.one) == x && f.mul(x, f.zero) == f.zero)
    && (forall x: F :: f.add(x, f.zero) == x && f.add(x, x) == f.zero)
    && (forall x: F, y: F {:trigger Two(x, y)} :: f.mul(x, y) == f.mul(y, x) && f.add(x, y) == f.add(y, x))
    && (forall x: F, y: F, z: F {:trigger Three(x, y, z)} ::
          && f.mul(x, f.mul(y, z)) == f.mul(f.mul(x, y), z)
          && f.add(x, f.add(y, z)) == f.add(f.add(x, y), z)
          && f.mul(x, f.add(y, z)) == f.add(f.mul(x, y), f.mul(x, z)))
  }

  ghost predicate PowerLaw<F>(f: Field<F>) {
    f.pow(0) == f.one && forall i: nat, j: nat :: f.mul(f.pow(i), f.pow(j)) == f.pow(i + j)
  }

  ghost predicate UnitLaws<F(!new)>(f: Field<F>) {
    && (forall x: F :: f.mul(x, f.one) == x && f.mul(x, f.zero) == f.zero)
    && (forall x: F :: f.add(x, f.zero) == x && f.add(x, x) == f.zero)
  }

  ghost predicate Commutative<F(!new)>(f: Field<F>) {
    forall x: F, y: F {:trigger Two(x, y)} :: f.mul(x, y) == f.mul(y, x) && f.add(x, y) == f.add(y, x)
  }

  ghost predicate Associative<F(!new)>(f: Field<F>) {
    forall x: F, y: F, z: F {:trigger Three(x, y, z)} ::
      f.mul(x, f.mul(y, z)) == f.mul(f.mul(x, y), z) && f.add(x, f.add(y, z)) == f.add(f.add(x, y), z)
  }

  ghost predicate Distributive<F(!new)>(f: Field<F>) {
    forall x: F, y: F, z: F {:trigger Three(x, y, z)} :: f.mul(x, f.add(y, z)) == f.add(f.mul(x, y), f.mul(x, z))
  }

  lemma FromLaws<F(!new)>(f: Field<F>)
    requires PowerLaw(f) && UnitLaws(f) && Commutative(f) && Associative(f) && Distributive(f)
    ensures Lawful(f)
  {
    forall x: F, y: F ensures f.mul(x, y) == f.mul(y, x) && f.add(x, y) == f.add(y, x) {
      assert Two(x, y);
    }
    forall x: F, y: F, z: F
      ensures f.mul(x, f.mul(y, z)) == f.mul(f.mul(x, y), z)
      ensures f.add(x, f.add(y, z)) == f.add(f.add(x, y), z)
      ensures f.mul(x, f.add(y, z)) == f.add(f.mul(x, y), f.mul(x, z))
    {
      assert Three(x, y, z);
    }
  }

  /** The coefficient at position k, by the recurrence that multiplying by one more factor gives. */
  ghost function Gaussian<F>(f: Field<F>, n: nat, k: int): F {
    if k < 0 || k > n then f.zero
    else if n == 0 then f.one
    else f.add(Gaussian(f, n - 1, k), f.mul(f.pow(n - 1), Gaussian(f, n - 1, k - 1)))
  }

  /** (p b) r is (p r) b. */
  lemma MovesOut<F(!new)>(f: Field<F>, p: F, b: F, r: F)
    requires Lawful(f)
    ensures f.mul(f.mul(p, b), r) == f.mul(f.mul(p, r), b)
  {
    assert Three(p, b, r) && Three(p, r, b) && Two(b, r);
  }

  /** (p + t) b, with the factor distributed. */
  lemma SumTimes<F(!new)>(f: Field<F>, p: F, t: F, b: F)
    requires Lawful(f)
    ensures f.mul(f.add(p, t), b) == f.add(f.mul(p, b), f.mul(t, b))
  {
    assert Three(b, p, t) && Two(b, p) && Two(b, t) && Two(b, f.add(p, t));
  }

  /** x (r + 1) is x r + x. */
  lemma TimesMore<F(!new)>(f: Field<F>, x: F, r: F)
    requires Lawful(f)
    ensures f.mul(x, f.add(r, f.one)) == f.add(f.mul(x, r), x)
  {
    assert Three(x, r, f.one);
  }

  /** (x + y) + (z + x) is y + z. */
  lemma Cancels<F(!new)>(f: Field<F>, x: F, y: F, z: F)
    requires Lawful(f)
    ensures f.add(f.add(x, y), f.add(z, x)) == f.add(y, z)
  {
    assert Two(x, y) && Two(z, x) && Three(y, x, f.add(x, z)) && Three(x, x, z) && Two(z, f.zero);
  }

  /** The left side of the next ratio. */
  lemma RatioLeft<F(!new)>(f: Field<F>, p: F, t: F, r: F, a: F, b: F)
    requires Lawful(f) && f.mul(a, f.add(r, f.one)) == f.mul(f.add(p, t), b)
    ensures f.mul(f.add(a, f.mul(p, b)), f.add(r, f.one)) == f.add(f.mul(t, b), f.mul(f.mul(p, r), b))
  {
    SumTimes(f, a, f.mul(p, b), f.add(r, f.one));
    TimesMore(f, f.mul(p, b), r);
    MovesOut(f, p, b, r);
    SumTimes(f, p, t, b);
    Cancels(f, f.mul(p, b), f.mul(t, b), f.mul(f.mul(p, r), b));
  }

  /** s (b (t + 1)) is (s t) b + s b. */
  lemma ScaledSum<F(!new)>(f: Field<F>, s: F, b: F, t: F)
    requires Lawful(f)
    ensures f.mul(s, f.mul(b, f.add(t, f.one))) == f.add(f.mul(f.mul(s, t), b), f.mul(s, b))
  {
    TimesMore(f, b, t);
    assert Three(s, f.mul(b, t), b) && Two(b, t) && Three(s, t, b);
  }

  /** (q p + q u) (p c) is (q p) ((p + u) c). */
  lemma ShiftedFactor<F(!new)>(f: Field<F>, q: F, p: F, u: F, c: F)
    requires Lawful(f)
    ensures f.mul(f.add(f.mul(q, p), f.mul(q, u)), f.mul(p, c)) == f.mul(f.mul(q, p), f.mul(f.add(p, u), c))
  {
    assert Three(q, p, u) && Three(f.mul(q, f.add(p, u)), p, c) && Three(f.mul(q, p), f.add(p, u), c);
    MovesOut(f, q, f.add(p, u), p);
  }

  /** The right side of the next ratio; s and t are the next powers. */
  lemma RatioRight<F(!new)>(f: Field<F>, q: F, p: F, u: F, s: F, t: F, b: F, c: F)
    requires Lawful(f) && s == f.mul(q, p) && t == f.mul(q, u)
    requires f.mul(b, f.add(t, f.one)) == f.mul(f.add(p, u), c)
    ensures f.mul(f.add(s, t), f.add(b, f.mul(p, c))) == f.add(f.mul(t, b), f.mul(f.mul(s, t), b))
  {
    assert Three(f.add(s, t), b, f.mul(p, c));
    SumTimes(f, s, t, b);
    ShiftedFactor(f, q, p, u, c);
    ScaledSum(f, s, b, t);
    Cancels(f, f.mul(s, b), f.mul(t, b), f.mul(f.mul(s, t), b));
  }

  lemma {:induction false} GaussianEnds<F(!new)>(f: Field<F>, n: nat)
    requires Lawful(f)
    ensures Gaussian(f, n, 0) == f.one
  {
    if n > 0 { GaussianEnds(f, n - 1); }
  }

  /** Outside the triangle both sides vanish. */
  lemma RatioOutside<F(!new)>(f: Field<F>, n: nat, k: nat)
    requires Lawful(f) && k > n
    ensures f.mul(Gaussian(f, n, k), f.add(f.pow(k), f.one))
         == f.mul(f.add(f.pow(n), f.pow(k - 1)), Gaussian(f, n, k - 1))
  {
    assert Two(f.zero, f.add(f.pow(k), f.one));
    assert Two(f.zero, Gaussian(f, n, k - 1));
  }

  lemma RatioStart<F(!new)>(f: Field<F>, n: nat)
    requires Lawful(f) && n > 0
    requires f.mul(Gaussian(f, n - 1, 1), f.add(f.pow(1), f.one))
          == f.mul(f.add(f.pow(n - 1), f.pow(0)), Gaussian(f, n - 1, 0))
    ensures f.mul(Gaussian(f, n, 1), f.add(f.pow(1), f.one)) == f.mul(f.add(f.pow(n), f.pow(0)), Gaussian(f, n, 0))
  {
    GaussianEnds(f, n - 1);
    GaussianEnds(f, n);
    RatioLeft(f, f.pow(n - 1), f.one, f.pow(1), Gaussian(f, n - 1, 1), f.one);
    assert f.mul(f.pow(n - 1), f.pow(1)) == f.pow(n);
    assert Two(f.one, f.pow(n));
  }

  /** The ratio of a coefficient and its predecessor. */
  lemma {:induction false} Ratio<F(!new)>(f: Field<F>, n: nat, k: nat)
    requires Lawful(f) && k > 0
    ensures f.mul(Gaussian(f, n, k), f.add(f.pow(k), f.one))
         == f.mul(f.add(f.pow(n), f.pow(k - 1)), Gaussian(f, n, k - 1))
  {
    if k > n {
      RatioOutside(f, n, k);
    } else if k == 1 {
      Ratio(f, n - 1, 1);
      RatioStart(f, n);
    } else {
      var p, t, b := f.pow(n - 1), f.pow(k - 1), Gaussian(f, n - 1, k - 1);
      Ratio(f, n - 1, k);
      RatioLeft(f, p, t, f.pow(k), Gaussian(f, n - 1, k), b);
      assert f.mul(p, f.pow(k)) == f.pow(n + k - 1) == f.mul(f.pow(n), t);
      Ratio(f, n - 1, k - 1);
      assert f.mul(f.pow(1), p) == f.pow(n) && f.mul(f.pow(1), f.pow(k - 2)) == t;
      RatioRight(f, f.pow(1), p, f.pow(k - 2), f.pow(n), t, b, Gaussian(f, n - 1, k - 2));
    }
  }

  /** No product of nonzero elements vanishes, and neither does one. */
  ghost predicate Integral<F(!new)>(f: Field<F>) {
    f.one != f.zero && forall x: F, y: F :: f.mul(x, y) == f.zero ==> x == f.zero || y == f.zero
  }

  /** The first n + 1 powers are all different. */
  ghost predicate PowersDiffer<F>(f: Field<F>, n: nat) {
    forall i: nat, j: nat | i < j <= n :: f.add(f.pow(j), f.pow(i)) != f.zero
  }

  /** While the powers do not repeat, no coefficient is zero. */
  lemma {:induction false} GaussianNonzero<F(!new)>(f: Field<F>, n: nat, k: nat)
    requires Lawful(f) && Integral(f) && PowersDiffer(f, n) && k <= n
    ensures Gaussian(f, n, k) != f.zero
  {
    if k == 0 {
      GaussianEnds(f, n);
    } else {
      GaussianNonzero(f, n, k - 1);
      Ratio(f, n, k);
      assert f.add(f.pow(n), f.pow(k - 1)) != f.zero;
      assert Two(f.zero, f.add(f.pow(k), f.one));
    }
  }

  /** Once they do, the second coefficient is. */
  lemma FullProductHasZero<F(!new)>(f: Field<F>, n: nat)
    requires Lawful(f) && Integral(f) && n > 0 && f.pow(n) == f.one && f.add(f.pow(1), f.one) != f.zero
    ensures Gaussian(f, n, 1) == f.zero
  {
    Ratio(f, n, 1);
    assert Two(f.zero, Gaussian(f, n, 0));
  }
}
