/** Polynomials over GF(256), leading coefficient first, as the generator multiplies and divides them. */
module QrPolynomial {
  import opened Bytes
  import opened QrField
  import opened QrTables

  type Poly = seq<bv8>

  function Zeros(n: nat): (z: Poly)
    ensures |z| == n
  {
    seq(n, _ => 0)
  }

  ghost function Eval(p: Poly, x: bv8): bv8 {
    if p == [] then 0 else Times(x, Eval(p[..|p| - 1], x)) ^ p[|p| - 1]
  }

  function Xor(p: Poly, q: Poly): (r: Poly)
    requires |p| == |q|
    ensures |r| == |p|
  {
    seq(|p|, i requires 0 <= i < |p| => p[i] ^ q[i])
  }

  ghost function Scale(c: bv8, p: Poly): (r: Poly)
    ensures |r| == |p|
  {
    seq(|p|, i requires 0 <= i < |p| => Times(c, p[i]))
  }

  /** The polynomial without leading zeros. */
  function Strip(p: Poly): (r: Poly)
    ensures |r| <= |p| && (r != [] ==> r[0] != 0)
    ensures p != [] && p[0] != 0 ==> r == p
    ensures p != [] && p[0] == 0 ==> |r| < |p|
  {
    if p != [] && p[0] == 0 then Strip(p[1..]) else p
  }

  // ---------------------------------------------------------------- evaluation

  lemma EvalSnoc(p: Poly, c: bv8, x: bv8)
    ensures Eval(p + [c], x) == Times(x, Eval(p, x)) ^ c
  {
    assert (p + [c])[..|p|] == p;
  }

  lemma {:induction false} EvalPadLeft(p: Poly, n: nat, x: bv8)
    ensures Eval(Zeros(n) + p, x) == Eval(p, x)
    decreases |p|, n
  {
    if p != [] {
      EvalPadLeft(p[..|p| - 1], n, x);
      assert (Zeros(n) + p)[..n + |p| - 1] == Zeros(n) + p[..|p| - 1];
    } else if n > 0 {
      EvalPadLeft([], n - 1, x);
      assert Zeros(n) + p == (Zeros(n - 1) + []) + [0];
      EvalSnoc(Zeros(n - 1) + [], 0, x);
      TimesOne(x);
    }
  }

  lemma {:induction false} EvalStrip(p: Poly, x: bv8)
    ensures Eval(Strip(p), x) == Eval(p, x)
  {
    if p != [] && p[0] == 0 {
      EvalStrip(p[1..], x);
      EvalPadLeft(p[1..], 1, x);
      assert p == Zeros(1) + p[1..];
    }
  }

  lemma {:induction false} EvalXor(p: Poly, q: Poly, x: bv8)
    requires |p| == |q|
    ensures Eval(Xor(p, q), x) == Eval(p, x) ^ Eval(q, x)
  {
    if p != [] {
      var p', q', c, d := p[..|p| - 1], q[..|q| - 1], p[|p| - 1], q[|q| - 1];
      EvalXor(p', q', x);
      EvalXorSnoc(p', q', c, d, x);
      assert p == p' + [c] && q == q' + [d];
    }
  }

  lemma XorSnoc(p: Poly, q: Poly, c: bv8, d: bv8)
    requires |p| == |q|
    ensures Xor(p + [c], q + [d]) == Xor(p, q) + [c ^ d]
  {
  }

  lemma EvalXorSnoc(p: Poly, q: Poly, c: bv8, d: bv8, x: bv8)
    requires |p| == |q| && Eval(Xor(p, q), x) == Eval(p, x) ^ Eval(q, x)
    ensures Eval(Xor(p + [c], q + [d]), x) == Eval(p + [c], x) ^ Eval(q + [d], x)
  {
    XorSnoc(p, q, c, d);
    EvalSnoc(Xor(p, q), c ^ d, x);
    EvalSnoc(p, c, x);
    EvalSnoc(q, d, x);
    HornerXor(x, Eval(Xor(p, q), x), Eval(p, x), Eval(q, x), c, d);
  }

  lemma HornerXor(x: bv8, e: bv8, a: bv8, b: bv8, c: bv8, d: bv8)
    requires e == a ^ b
    ensures Times(x, e) ^ (c ^ d) == (Times(x, a) ^ c) ^ (Times(x, b) ^ d)
  {
    TimesDistributes(x, a, b);
    XorSwap(Times(x, a), Times(x, b), c, d);
  }

  lemma HornerScale(c: bv8, x: bv8, s: bv8, e: bv8, last: bv8, t: bv8)
    requires s == Times(c, e) && t == Times(c, last)
    ensures Times(x, s) ^ t == Times(c, Times(x, e) ^ last)
  {
    TimesDistributes(c, Times(x, e), last);
    TimesAssociates(x, c, e);
    TimesAssociates(c, x, e);
    TimesCommutes(c, x);
  }

  lemma XorSwap(a: bv8, b: bv8, c: bv8, d: bv8)
    ensures (a ^ b) ^ (c ^ d) == (a ^ c) ^ (b ^ d)
  {
  }

  lemma {:induction false} EvalScale(c: bv8, p: Poly, x: bv8)
    ensures Eval(Scale(c, p), x) == Times(c, Eval(p, x))
  {
    if p == [] {
      TimesOne(c);
    } else {
      var p', last := p[..|p| - 1], p[|p| - 1];
      EvalScale(c, p', x);
      EvalScaleSnoc(c, p', last, x);
      assert p == p' + [last];
    }
  }

  lemma ScaleSnoc(c: bv8, p: Poly, last: bv8)
    ensures Scale(c, p + [last]) == Scale(c, p) + [Times(c, last)]
  {
  }

  lemma EvalScaleSnoc(c: bv8, p: Poly, last: bv8, x: bv8)
    requires Eval(Scale(c, p), x) == Times(c, Eval(p, x))
    ensures Eval(Scale(c, p + [last]), x) == Times(c, Eval(p + [last], x))
  {
    var t := Times(c, last);
    ScaleSnoc(c, p, last);
    EvalSnoc(Scale(c, p), t, x);
    EvalSnoc(p, last, x);
    HornerScale(c, x, Eval(Scale(c, p), x), Eval(p, x), last, t);
  }

  /** A root stays a root when the polynomial is shifted. */
  lemma {:induction false} EvalShiftedRoot(p: Poly, n: nat, x: bv8)
    requires Eval(p, x) == 0
    ensures Eval(p + Zeros(n), x) == 0
  {
    if n == 0 {
      assert p + Zeros(0) == p;
    } else {
      EvalShiftedRoot(p, n - 1, x);
      assert p + Zeros(n) == (p + Zeros(n - 1)) + [0];
      EvalSnoc(p + Zeros(n - 1), 0, x);
      TimesOne(x);
    }
  }

  lemma {:induction false} EvalShiftedScale(c: bv8, b: Poly, n: nat, x: bv8)
    ensures Eval(Scale(c, b) + Zeros(n), x) == Times(Eval([c] + Zeros(n), x), Eval(b, x))
  {
    if n == 0 {
      EvalConstant(c, b, x);
    } else {
      EvalShiftedScale(c, b, n - 1, x);
      EvalShiftMore(Scale(c, b) + Zeros(n - 1), [c] + Zeros(n - 1), b, x);
      ShiftOneMore(Scale(c, b), n);
      ShiftOneMore([c], n);
    }
  }

  lemma ShiftOneMore(p: Poly, n: nat)
    requires n > 0
    ensures p + Zeros(n) == (p + Zeros(n - 1)) + [0]
  {
  }

  lemma EvalConstant(c: bv8, b: Poly, x: bv8)
    ensures Eval(Scale(c, b) + Zeros(0), x) == Times(Eval([c] + Zeros(0), x), Eval(b, x))
  {
    assert Scale(c, b) + Zeros(0) == Scale(c, b) && [c] + Zeros(0) == [] + [c];
    EvalScale(c, b, x);
    EvalSnoc([], c, x);
    TimesOne(x);
    XorZero(c);
  }

  /** A product stays one when product and factor are shifted. */
  lemma EvalShiftMore(s: Poly, f: Poly, b: Poly, x: bv8)
    requires Eval(s, x) == Times(Eval(f, x), Eval(b, x))
    ensures Eval(s + [0], x) == Times(Eval(f + [0], x), Eval(b, x))
  {
    EvalSnoc(s, 0, x);
    EvalSnoc(f, 0, x);
    HornerShift(x, Eval(s, x), Eval(f, x), Eval(b, x));
  }

  lemma HornerShift(x: bv8, s: bv8, f: bv8, b: bv8)
    requires s == Times(f, b)
    ensures Times(x, s) ^ 0 == Times(Times(x, f) ^ 0, b)
  {
    TimesAssociates(x, f, b);
    XorZero(Times(x, s));
    XorZero(Times(x, f));
  }

  lemma XorZero(v: bv8)
    ensures v ^ 0 == v
  {
  }

  // ---------------------------------------------------------------- products

  /** Coefficient k of the product after the first i rows of the schoolbook scheme. */
  ghost function Coefficient(a: Poly, b: Poly, i: nat, k: nat): bv8
    requires i <= |a|
  {
    if i == 0 then 0
    else Coefficient(a, b, i - 1, k) ^ (if i - 1 <= k < i - 1 + |b| then Times(a[i - 1], b[k - (i - 1)]) else 0)
  }

  ghost function Rows(a: Poly, b: Poly, i: nat): (r: Poly)
    requires i <= |a| && a != [] && b != []
    ensures |r| == |a| + |b| - 1
  {
    seq(|a| + |b| - 1, k requires 0 <= k < |a| + |b| - 1 => Coefficient(a, b, i, k))
  }

  lemma EvalZeros(n: nat, x: bv8)
    ensures Eval(Zeros(n), x) == 0
  {
    EvalPadLeft([], n, x);
    assert Zeros(n) + [] == Zeros(n);
  }

  /** The i-th row of the scheme, in place. */
  ghost function RowOf(a: Poly, b: Poly, j: nat): (r: Poly)
    requires j < |a| && b != []
    ensures |r| == |a| + |b| - 1
  {
    Zeros(j) + (Scale(a[j], b) + Zeros(|a| - j - 1))
  }

  /** The j-th coefficient alone, in place. */
  function Single(a: Poly, j: nat): (r: Poly)
    requires j < |a|
    ensures |r| == |a|
  {
    Zeros(j) + ([a[j]] + Zeros(|a| - j - 1))
  }

  lemma RowsStep(a: Poly, b: Poly, j: nat)
    requires j < |a| && b != []
    ensures Rows(a, b, j + 1) == Xor(Rows(a, b, j), RowOf(a, b, j))
  {
    var l, r := Rows(a, b, j + 1), Xor(Rows(a, b, j), RowOf(a, b, j));
    forall k | 0 <= k < |a| + |b| - 1 ensures l[k] == r[k] {
      assert RowOf(a, b, j)[k] == if j <= k < j + |b| then Times(a[j], b[k - j]) else 0;
    }
  }

  lemma PrefixStep(a: Poly, j: nat)
    requires j < |a|
    ensures a[..j + 1] + Zeros(|a| - j - 1) == Xor(a[..j] + Zeros(|a| - j), Single(a, j))
  {
  }

  lemma EvalRowOf(a: Poly, b: Poly, j: nat, x: bv8)
    requires j < |a| && b != []
    ensures Eval(RowOf(a, b, j), x) == Times(Eval(Single(a, j), x), Eval(b, x))
  {
    EvalPadLeft(Scale(a[j], b) + Zeros(|a| - j - 1), j, x);
    EvalPadLeft([a[j]] + Zeros(|a| - j - 1), j, x);
    EvalShiftedScale(a[j], b, |a| - j - 1, x);
  }

  lemma {:induction false} EvalRows(a: Poly, b: Poly, i: nat, x: bv8)
    requires i <= |a| && a != [] && b != []
    ensures Eval(Rows(a, b, i), x) == Times(Eval(a[..i] + Zeros(|a| - i), x), Eval(b, x))
  {
    if i == 0 {
      EvalNoRows(a, b, x);
    } else {
      EvalRows(a, b, i - 1, x);
      EvalRowsStep(a, b, i - 1, x);
    }
  }

  lemma EvalNoRows(a: Poly, b: Poly, x: bv8)
    requires a != [] && b != []
    ensures Eval(Rows(a, b, 0), x) == Times(Eval(a[..0] + Zeros(|a|), x), Eval(b, x))
  {
    assert Rows(a, b, 0) == Zeros(|a| + |b| - 1);
    assert a[..0] + Zeros(|a|) == Zeros(|a|);
    EvalZeros(|a| + |b| - 1, x);
    EvalZeros(|a|, x);
    TimesOne(Eval(b, x));
  }

  lemma EvalRowsStep(a: Poly, b: Poly, j: nat, x: bv8)
    requires j < |a| && b != []
    requires Eval(Rows(a, b, j), x) == Times(Eval(a[..j] + Zeros(|a| - j), x), Eval(b, x))
    ensures Eval(Rows(a, b, j + 1), x) == Times(Eval(a[..j + 1] + Zeros(|a| - j - 1), x), Eval(b, x))
  {
    var done, single := Eval(a[..j] + Zeros(|a| - j), x), Eval(Single(a, j), x);
    RowsStep(a, b, j);
    PrefixStep(a, j);
    EvalXor(Rows(a, b, j), RowOf(a, b, j), x);
    EvalXor(a[..j] + Zeros(|a| - j), Single(a, j), x);
    EvalRowOf(a, b, j, x);
    ProductsAdd(Eval(Rows(a, b, j), x), Eval(RowOf(a, b, j), x), done, single, Eval(b, x));
  }

  lemma ProductsAdd(e: bv8, f: bv8, done: bv8, single: bv8, b: bv8)
    requires e == Times(done, b) && f == Times(single, b)
    ensures e ^ f == Times(done ^ single, b)
  {
    TimesDistributes(b, done, single);
  }

  /** Evaluation turns products of polynomials into products of bytes. */
  lemma EvalProduct(a: Poly, b: Poly, x: bv8)
    requires a != [] && b != []
    ensures Eval(Rows(a, b, |a|), x) == Times(Eval(a, x), Eval(b, x))
  {
    EvalRows(a, b, |a|, x);
    assert a[..|a|] + Zeros(0) == a;
  }

  lemma {:induction false} LeadingCoefficient(a: Poly, b: Poly, i: nat)
    requires 0 < i <= |a| && b != []
    ensures Coefficient(a, b, i, 0) == Times(a[0], b[0])
  {
    if i > 1 { LeadingCoefficient(a, b, i - 1); } else { assert Coefficient(a, b, 0, 0) == 0; }
  }
}
