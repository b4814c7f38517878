/**
 The error-correction codewords of a QR symbol (section 7.5.2 of ISO/IEC 18004:2015) as the generator
 computes them, and the interleaving of its blocks (section 7.6).
 An array slot the source has not assigned yet counts as zero, as it does under exclusive or.
 */
module QrCodec {
  import opened Bytes
  import opened QrField
  import opened QrGenerator
  import opened QrTables
  import opened QrPolynomial

  /** qrPolynomial: drops leading zeros, then multiplies by x^shift. */
  method MakePolynomial(num: Poly, shift: nat) returns (p: Poly)
    ensures p == Strip(num) + Zeros(shift)
  {
    var offset := 0;
    while offset < |num| && num[offset] == 0
      invariant offset <= |num| && Strip(num[offset..]) == Strip(num)
    {
      offset := offset + 1;
    }
    p := num[offset..] + Zeros(shift);
  }

  /** The slot-by-slot state of multiply: rows before i are in, and of row i the first j terms. */
  ghost predicate Multiplied(num: array<bv8>, a: Poly, b: Poly, i: nat, j: nat)
    requires i < |a|
    reads num
  {
    num.Length == |a| + |b| - 1 &&
    forall k | 0 <= k < num.Length ::
      num[k] == Coefficient(a, b, i, k) ^ (if i <= k < i + j && k - i < |b| then Times(a[i], b[k - i]) else 0)
  }

  /** One row of multiply; the source throws at a zero coefficient. */
  method MultiplyRow(m: QrMath, num: array<bv8>, a: Poly, b: Poly, i: nat) returns (ok: bool)
    requires m.Valid() && i < |a| && b != [] && num != m.exp && num as object != m.log
    requires Multiplied(num, a, b, i, 0)
    modifies num
    ensures ok ==> Multiplied(num, a, b, i, |b|) && a[i] != 0 && 0 !in b
    ensures !ok ==> a[i] == 0 || 0 in b
  {
    for j := 0 to |b|
      invariant m.Valid() && Multiplied(num, a, b, i, j)
      invariant j > 0 ==> a[i] != 0
      invariant 0 !in b[..j]
    {
      var la := m.Glog(a[i]);
      var lb := m.Glog(b[j]);
      if la == None || lb == None { return false; }
      var t := m.Gexp(la.value + lb.value);
      TimesPow(la.value, b[j]);
      IterAdds(la.value, lb.value, 1);
      PowModulo(la.value + lb.value);
      AddTerm(num, a, b, i, j, t);
    }
    ok := true;
    assert b[..|b|] == b;
  }

  method AddTerm(num: array<bv8>, a: Poly, b: Poly, i: nat, j: nat, t: bv8)
    requires i < |a| && j < |b| && t == Times(a[i], b[j]) && Multiplied(num, a, b, i, j)
    modifies num
    ensures Multiplied(num, a, b, i, j + 1)
  {
    num[i + j] := num[i + j] ^ t;
    XorZero(Coefficient(a, b, i, i + j));
  }

  lemma MultipliedNext(num: array<bv8>, a: Poly, b: Poly, i: nat)
    requires i + 1 < |a| && Multiplied(num, a, b, i, |b|)
    ensures Multiplied(num, a, b, i + 1, 0)
  {
    forall k | 0 <= k < num.Length ensures num[k] == Coefficient(a, b, i + 1, k) ^ 0 {
      assert num[k] == Coefficient(a, b, i, k) ^ (if i <= k < i + |b| && k - i < |b| then Times(a[i], b[k - i]) else 0);
      XorZero(Coefficient(a, b, i + 1, k));
    }
  }

  lemma MultipliedAll(num: array<bv8>, a: Poly, b: Poly)
    requires a != [] && b != [] && Multiplied(num, a, b, |a| - 1, |b|)
    ensures num[..] == Rows(a, b, |a|)
  {
    forall k | 0 <= k < num.Length ensures num[k] == Coefficient(a, b, |a|, k) {
    }
  }

  /** multiply: the product, or a throw at a zero coefficient. */
  method Multiply(m: QrMath, a: Poly, b: Poly) returns (r: Option<Poly>)
    requires m.Valid() && a != [] && b != []
    ensures r.None? <==> 0 in a || 0 in b
    ensures r.Some? ==> r.value == Rows(a, b, |a|)
  {
    var num := new bv8[|a| + |b| - 1](_ => 0);
    forall k | 0 <= k < num.Length ensures num[k] == Coefficient(a, b, 0, k) ^ 0 {
      XorZero(0);
    }
    for i := 0 to |a|
      invariant m.Valid() && 0 !in a[..i] && (i > 0 ==> 0 !in b)
      invariant if i < |a| then Multiplied(num, a, b, i, 0) else Multiplied(num, a, b, |a| - 1, |b|)
    {
      var ok := MultiplyRow(m, num, a, b, i);
      if !ok { return None; }
      if i + 1 < |a| { MultipliedNext(num, a, b, i); }
    }
    assert a[..|a|] == a;
    MultipliedAll(num, a, b);
    LeadingCoefficient(a, b, |a|);
    TimesNonzero(a[0], b[0]);
    var p := MakePolynomial(num[..], 0);
    assert Strip(num[..]) + Zeros(0) == num[..];
    r := Some(p);
  }

  /** g vanishes at the first n powers of alpha. */
  ghost predicate HasRoots(g: Poly, n: nat) {
    forall i: nat | i < n :: Eval(g, Pow(i)) == 0
  }

  lemma FactorRoot(i: nat)
    ensures Eval([1, Pow(i)], Pow(i)) == 0
  {
    var x := Pow(i);
    assert [1, x] == ([] + [1]) + [x];
    EvalSnoc([], 1, x);
    EvalSnoc([] + [1], x, x);
    TimesOne(x);
    XorSelf(x);
    XorZero(1);
  }

  lemma XorSelf(v: bv8)
    ensures v ^ v == 0 && 0 ^ v == v
  {
  }

  /** One more factor keeps the roots and adds its own. */
  lemma ProductHasRoots(g: Poly, n: nat)
    requires g != [] && HasRoots(g, n)
    ensures HasRoots(Rows(g, [1, Pow(n)], |g|), n + 1)
  {
    var b := [1, Pow(n)];
    forall i: nat | i < n + 1 ensures Eval(Rows(g, b, |g|), Pow(i)) == 0 {
      EvalProduct(g, b, Pow(i));
      if i == n {
        FactorRoot(n);
        TimesOne(Eval(g, Pow(n)));
      } else {
        TimesOne(Eval(b, Pow(i)));
      }
    }
  }

  lemma {:induction false} GeneratorHasRoots(n: nat)
    ensures HasRoots(Generator(n), n) && Generator(n)[0] != 0
  {
    if n > 0 {
      var g, b := Generator(n - 1), [1, Pow(n - 1)];
      GeneratorHasRoots(n - 1);
      ProductHasRoots(g, n - 1);
      LeadingCoefficient(g, b, n);
      TimesNonzero(g[0], 1);
    }
  }

  /**
   getErrorCorrectPolynomial: the polynomial of degree n with the first n powers of alpha as roots.
   It returns exactly up to degree 255; the standard asks for no more than 30.
   */
  method GetErrorCorrectPolynomial(m: QrMath, n: nat) returns (r: Option<Poly>)
    requires m.Valid()
    ensures r.None? <==> n > 255
    ensures r.Some? ==> r.value == Generator(n)
    ensures r.Some? ==> |r.value| == n + 1 && r.value[0] != 0 && HasRoots(r.value, n)
  {
    var g: Poly := [1];
    for i := 0 to n
      invariant m.Valid() && i <= 255 && g == Generator(i)
    {
      var root := m.Gexp(i);
      PowModulo(i);
      var b := MakePolynomial([1, root], 0);
      assert b == [1, Pow(i)];
      GeneratorZeroFree(i);
      PowNonzero(i);
      var next := Multiply(m, g, b);
      if next == None { return None; }
      g := next.value;
    }
    GeneratorHasRoots(n);
    r := Some(g);
  }

  // ---------------------------------------------------------------- division

  /** One step of the long division: subtract the divisor, scaled, from the leading end. */
  ghost function Reduced(p: Poly, e: Poly, c: bv8): (q: Poly)
    requires |e| <= |p|
    ensures |q| == |p|
  {
    Xor(p, Scale(c, e) + Zeros(|p| - |e|))
  }

  /** Where the divisor vanishes, the step changes nothing. */
  lemma ReducedAgrees(p: Poly, e: Poly, c: bv8, x: bv8)
    requires |e| <= |p| && Eval(e, x) == 0
    ensures Eval(Reduced(p, e, c), x) == Eval(p, x)
  {
    EvalScale(c, e, x);
    TimesOne(c);
    EvalShiftedRoot(Scale(c, e), |p| - |e|, x);
    EvalXor(p, Scale(c, e) + Zeros(|p| - |e|), x);
    XorZero(Eval(p, x));
  }

  /** Adding exponents, whole or reduced, multiplies. */
  lemma ScaledTerm(ratio: int, l: nat, v: bv8)
    requires Pow(l) == v
    ensures Pow((l + ratio) % 255) == Times(Pow(ratio % 255), v)
  {
    var r := ratio % 255;
    TimesPow(r, v);
    IterAdds(r, l, 1);
    PowModulo(r + l);
    assert (l + ratio) % 255 == (r + l) % 255;
  }

  /** The subtraction loop of mod; the source throws at a zero coefficient of the divisor. */
  method SubtractScaled(m: QrMath, p: Poly, e: Poly, ratio: int) returns (r: Option<Poly>)
    requires m.Valid() && |e| <= |p|
    ensures r.None? <==> 0 in e
    ensures r.Some? ==> r.value == Reduced(p, e, Pow(ratio % 255))
  {
    ghost var c := Pow(ratio % 255);
    var num := new bv8[|p|](i requires 0 <= i < |p| => p[i]);
    for i := 0 to |e|
      invariant m.Valid() && 0 !in e[..i]
      invariant forall k | 0 <= k < |p| :: num[k] == if k < i then p[k] ^ Times(c, e[k]) else p[k]
    {
      var l := m.Glog(e[i]);
      if l == None { return None; }
      var t := m.Gexp(l.value + ratio);
      ScaledTerm(ratio, l.value, e[i]);
      num[i] := num[i] ^ t;
    }
    assert e[..|e|] == e;
    SubtractedAll(num[..], p, e, c);
    r := Some(num[..]);
  }

  lemma SubtractedAll(num: Poly, p: Poly, e: Poly, c: bv8)
    requires |num| == |p| && |e| <= |p|
    requires forall k | 0 <= k < |p| :: num[k] == if k < |e| then p[k] ^ Times(c, e[k]) else p[k]
    ensures num == Reduced(p, e, c)
  {
    forall k | 0 <= k < |p| ensures num[k] == Reduced(p, e, c)[k] {
      XorZero(p[k]);
    }
  }

  /** The step cancels the leading coefficient. */
  lemma LeadCancels(p: Poly, e: Poly, lp: nat, le: nat)
    requires 0 < |e| <= |p| && lp < 255 && le < 255 && Pow(lp) == p[0] && Pow(le) == e[0]
    ensures Reduced(p, e, Pow((lp - le) % 255))[0] == 0
  {
    ScaledTerm(lp - le, le, e[0]);
    XorSelf(p[0]);
  }

  /**
   mod: whenever it returns, a remainder shorter than the divisor that agrees with the dividend
   wherever the divisor vanishes.
   */
  method Mod(m: QrMath, p: Poly, e: Poly) returns (r: Option<Poly>)
    requires m.Valid() && e != []
    ensures r.None? <==> |p| >= |e| && (p[0] == 0 || 0 in e)
    ensures r.Some? ==> |r.value| < |e| && forall x: bv8 | Eval(e, x) == 0 :: Eval(r.value, x) == Eval(p, x)
    decreases |p|
  {
    if |p| < |e| { return Some(p); }
    var lp := m.Glog(p[0]);
    var le := m.Glog(e[0]);
    if lp == None || le == None { return None; }
    var ratio: int := lp.value - le.value;
    var num := SubtractScaled(m, p, e, ratio);
    if num == None { return None; }
    LeadCancels(p, e, lp.value, le.value);
    var next := MakePolynomial(num.value, 0);
    assert next == Strip(num.value);
    r := Mod(m, next, e);
    forall x: bv8 | Eval(e, x) == 0 ensures Eval(next, x) == Eval(p, x) {
      ReducedAgrees(p, e, Pow(ratio % 255), x);
      EvalStrip(num.value, x);
    }
  }

  // ---------------------------------------------------------------- one block

  /** ecdata: the remainder, right-aligned in ecCount bytes. */
  function RightAligned(p: Poly, n: nat): (r: Poly)
    requires |p| <= n
    ensures |r| == n
  {
    Zeros(n - |p|) + p
  }

  /** The error correction that cannot be computed: of degree over 255, or of 255 for data that are not all zero. */
  predicate Throws(dc: Poly, ecCount: nat) {
    ecCount > 255 || (ecCount == 255 && exists i :: 0 <= i < |dc| && dc[i] != 0)
  }

  lemma {:induction false} StripEmpty(p: Poly)
    ensures Strip(p) == [] <==> forall i | 0 <= i < |p| :: p[i] == 0
  {
    if p != [] && p[0] == 0 {
      StripEmpty(p[1..]);
      assert forall i | 0 < i < |p| :: p[i] == p[1..][i - 1];
    }
  }

  /**
   The error correction of one block: the data bytes followed by it form a polynomial that vanishes
   at the first ecCount powers of alpha, so all syndromes are zero.  It is always computed for fewer
   than 255 bytes of it.
   */
  method EncodeBlock(m: QrMath, dc: Poly, ecCount: nat) returns (ec: Option<Poly>)
    requires m.Valid()
    ensures ec.None? <==> Throws(dc, ecCount)
    ensures ec.Some? ==> |ec.value| == ecCount && HasRoots(dc + ec.value, ecCount)
  {
    var rs := GetErrorCorrectPolynomial(m, ecCount);
    if rs == None { return None; }
    var raw := MakePolynomial(dc, |rs.value| - 1);
    GeneratorZeroFree(ecCount);
    StripEmpty(dc);
    var rem := Mod(m, raw, rs.value);
    if rem == None { return None; }
    var out := new bv8[ecCount](_ => 0);
    for i := 0 to ecCount
      invariant forall k | 0 <= k < i :: out[k] == RightAligned(rem.value, ecCount)[k]
    {
      var modIndex := i + |rem.value| - ecCount;
      out[i] := if modIndex >= 0 then rem.value[modIndex] else 0;
    }
    assert out[..] == RightAligned(rem.value, ecCount);
    forall i: nat | i < ecCount ensures Eval(dc + out[..], Pow(i)) == 0 {
      BlockVanishes(dc, rem.value, ecCount, Pow(i));
    }
    ec := Some(out[..]);
  }

  lemma BlockVanishes(dc: Poly, rem: Poly, n: nat, x: bv8)
    requires |rem| <= n && Eval(rem, x) == Eval(Strip(dc) + Zeros(n), x)
    ensures Eval(dc + RightAligned(rem, n), x) == 0
  {
    var ec := RightAligned(rem, n);
    SideBySide(dc, ec);
    EvalXor(dc + Zeros(n), Zeros(|dc|) + ec, x);
    EvalPadLeft(ec, |dc|, x);
    EvalPadLeft(rem, n - |rem|, x);
    EvalShiftedStrip(dc, n, x);
    XorSelf(Eval(rem, x));
  }

  lemma SideBySide(p: Poly, q: Poly)
    ensures p + q == Xor(p + Zeros(|q|), Zeros(|p|) + q)
  {
    var l, r := p + q, Xor(p + Zeros(|q|), Zeros(|p|) + q);
    forall k | 0 <= k < |l| ensures l[k] == r[k] {
      XorZero(l[k]);
      XorSelf(l[k]);
    }
  }

  /** Dropping leading zeros does not matter after a shift either. */
  lemma {:induction false} EvalShiftedStrip(p: Poly, n: nat, x: bv8)
    ensures Eval(Strip(p) + Zeros(n), x) == Eval(p + Zeros(n), x)
  {
    if p != [] && p[0] == 0 {
      EvalShiftedStrip(p[1..], n, x);
      EvalPadLeft(p[1..] + Zeros(n), 1, x);
      assert p + Zeros(n) == Zeros(1) + (p[1..] + Zeros(n));
    }
  }
}
