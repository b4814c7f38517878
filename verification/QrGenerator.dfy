/**
 The generator polynomials of the error correction: none of their coefficients is zero up to degree
 254, so that taking logarithms of them never fails.
 */
module QrGenerator {
  import opened GaussianRatio
  import opened QrField
  import opened QrPolynomial

  /** The product of the factors x + alpha^i for i below n. */
  ghost function Generator(n: nat): (g: Poly)
    ensures |g| == n + 1
  {
    if n == 0 then [1] else Rows(Generator(n - 1), [1, Pow(n - 1)], n)
  }

  // ---------------------------------------------------------------- powers of alpha are different

  predicate OneSoon(v: bv8) {
    v == 1 || XTime(v) == 1 || XTime(XTime(v)) == 1 || XTime(XTime(XTime(v))) == 1
  }

  /** From one giant to the next alpha^255 is the only way back to one. */
  lemma NoGiantReachesOne(v: bv8)
    requires IsGiant(v)
    ensures v != 1 ==> !OneSoon(v)
    ensures !OneSoon(X4(v)) && !OneSoon(X4(X4(v)))
    ensures v != 0x2c ==> !OneSoon(X4(X4(X4(v))))
    ensures var w := X4(X4(X4(v))); w != 1 && XTime(w) != 1 && XTime(XTime(w)) != 1
    ensures XTime(v) != 1 && XTime(XTime(v)) != 1 && XTime(XTime(XTime(v))) != 1
  {
  }

  lemma NotOneAfter(v: bv8, i: nat)
    requires IsGiant(v) && i < 16 && (v == 1 ==> i > 0) && (v == 0x2c ==> i < 15)
    ensures Iter(i, v) != 1
  {
    NoGiantReachesOne(v);
    if i < 4 {
      FourMore(0, v);
    } else if i < 8 {
      FourMore(0, v);
      FourMore(4, v);
    } else {
      LaterSteps(v);
    }
  }

  lemma LaterSteps(v: bv8)
    ensures Iter(8, v) == X4(X4(v)) && Iter(12, v) == X4(X4(X4(v)))
    ensures Iter(9, v) == XTime(Iter(8, v)) && Iter(10, v) == XTime(Iter(9, v)) && Iter(11, v) == XTime(Iter(10, v))
    ensures Iter(13, v) == XTime(Iter(12, v)) && Iter(14, v) == XTime(Iter(13, v)) && Iter(15, v) == XTime(Iter(14, v))
  {
    FourMore(0, v);
    FourMore(4, v);
    FourMore(8, v);
  }

  /** The order of alpha is not below 255. */
  lemma PowNotOne(d: nat)
    requires 0 < d < 255
    ensures Pow(d) != 1
  {
    var j, i := d / 16, d % 16;
    GiantPower(j);
    IterAdds(i, 16 * j, 1);
    GiantsGo(j);
    NotOneAfter(Giants[j], i);
  }

  lemma GiantsGo(j: nat)
    requires j < 16
    ensures IsGiant(Giants[j]) && (Giants[j] == 1 ==> j == 0) && (Giants[j] == 0x2c ==> j == 15)
  {
  }

  lemma PowsDiffer(i: nat, j: nat)
    requires i < j < 255
    ensures Pow(i) != Pow(j)
  {
    IterAdds(i, j - i, 1);
    if Pow(i) == Pow(j) {
      IterInjective(i, 1, Pow(j - i));
      PowNotOne(j - i);
    }
  }

  lemma DifferentXor(v: bv8, w: bv8)
    ensures v ^ w == 0 <==> v == w
  {
  }

  lemma PowTimes(i: nat, j: nat)
    ensures Times(Pow(i), Pow(j)) == Pow(i + j)
  {
    TimesPow(i, Pow(j));
    IterAdds(i, j, 1);
  }

  /** The field of the error correction. */
  ghost function Gf256(): Field<bv8> {
    Field(0, 1, (v: bv8, w: bv8) => v ^ w, (v: bv8, w: bv8) => Times(v, w), (k: nat) => Pow(k))
  }

  lemma XorLaws(v: bv8, w: bv8, u: bv8)
    ensures v ^ w == w ^ v && v ^ (w ^ u) == (v ^ w) ^ u && v ^ 0 == v && v ^ v == 0
  {
  }

  lemma Gf256Powers()
    ensures PowerLaw(Gf256())
  {
    var f := Gf256();
    forall i: nat, j: nat ensures f.mul(f.pow(i), f.pow(j)) == f.pow(i + j) { PowTimes(i, j); }
  }

  lemma Gf256Units()
    ensures UnitLaws(Gf256())
  {
    var f := Gf256();
    forall x: bv8 ensures f.mul(x, 1) == x && f.mul(x, 0) == 0 { TimesOne(x); }
    forall x: bv8 ensures f.add(x, 0) == x && f.add(x, x) == 0 { XorLaws(x, x, x); }
  }

  lemma Gf256Commutes()
    ensures Commutative(Gf256())
  {
    var f := Gf256();
    forall x: bv8, y: bv8 ensures f.mul(x, y) == f.mul(y, x) { TimesCommutes(x, y); }
    forall x: bv8, y: bv8 ensures f.add(x, y) == f.add(y, x) { XorLaws(x, y, x); }
  }

  lemma Gf256Associates()
    ensures Associative(Gf256())
  {
    var f := Gf256();
    forall x: bv8, y: bv8, z: bv8 ensures f.mul(x, f.mul(y, z)) == f.mul(f.mul(x, y), z) { TimesAssociates(x, y, z); }
    forall x: bv8, y: bv8, z: bv8 ensures f.add(x, f.add(y, z)) == f.add(f.add(x, y), z) { XorLaws(x, y, z); }
  }

  lemma Gf256Distributes()
    ensures Distributive(Gf256())
  {
    var f := Gf256();
    forall x: bv8, y: bv8, z: bv8 ensures f.mul(x, f.add(y, z)) == f.add(f.mul(x, y), f.mul(x, z)) {
      TimesDistributes(x, y, z);
    }
  }

  lemma Gf256IsLawful()
    ensures Lawful(Gf256())
  {
    Gf256Powers();
    Gf256Units();
    Gf256Commutes();
    Gf256Associates();
    Gf256Distributes();
    FromLaws(Gf256());
  }

  lemma Gf256IsIntegral()
    ensures Integral(Gf256())
  {
    var f := Gf256();
    forall x: bv8, y: bv8 | f.mul(x, y) == 0 ensures x == 0 || y == 0 {
      if x != 0 && y != 0 { TimesNonzero(x, y); }
    }
  }

  lemma Gf256PowersDiffer(n: nat)
    requires n < 255
    ensures PowersDiffer(Gf256(), n)
  {
    var f := Gf256();
    forall i: nat, j: nat | i < j <= n ensures f.add(f.pow(j), f.pow(i)) != 0 {
      PowsDiffer(i, j);
      DifferentXor(Pow(j), Pow(i));
    }
  }

  // ---------------------------------------------------------------- the coefficients are those of the product

  /** What row i - 1 adds at position k. */
  lemma TwoTermRow(g: Poly, x: bv8, i: nat, k: nat)
    requires 0 < i <= |g|
    ensures Coefficient(g, [1, x], i, k)
         == Coefficient(g, [1, x], i - 1, k)
            ^ (if k == i - 1 then g[k] else if k == i then Times(x, g[k - 1]) else 0)
  {
    TimesOne(g[i - 1]);
    TimesCommutes(x, g[i - 1]);
  }

  lemma {:induction false} TwoTermRows(g: Poly, x: bv8, i: nat, k: nat)
    requires i <= |g|
    ensures Coefficient(g, [1, x], i, k)
         == if k < i then g[k] ^ (if k > 0 then Times(x, g[k - 1]) else 0)
            else if k == i && k > 0 then Times(x, g[k - 1]) else 0
  {
    if i > 0 {
      TwoTermRow(g, x, i, k);
      TwoTermRows(g, x, i - 1, k);
      if k == i - 1 { XorLaws(g[k], if k > 0 then Times(x, g[k - 1]) else 0, 0); }
      XorZero(Coefficient(g, [1, x], i - 1, k));
      if k == i { XorLaws(Times(x, g[k - 1]), 0, 0); }
    }
  }

  lemma {:induction false} GeneratorCoefficient(n: nat, k: nat)
    requires k <= n
    ensures Generator(n)[k] == Gaussian(Gf256(), n, k)
  {
    if n > 0 {
      TwoTermRows(Generator(n - 1), Pow(n - 1), n, k);
      if k < n { GeneratorCoefficient(n - 1, k); } else { XorLaws(Times(Pow(n - 1), Generator(n - 1)[k - 1]), 0, 0); }
      if k > 0 { GeneratorCoefficient(n - 1, k - 1); } else { TimesOne(Pow(n - 1)); }
    }
  }

  /** A generator has a zero coefficient at degree 255, and at no smaller one. */
  lemma GeneratorZeroFree(n: nat)
    requires n <= 255
    ensures 0 in Generator(n) <==> n == 255
  {
    Gf256IsLawful();
    Gf256IsIntegral();
    if n == 255 {
      Period();
      PowNotOne(1);
      DifferentXor(Pow(1), 1);
      FullProductHasZero(Gf256(), 255);
      GeneratorCoefficient(255, 1);
      assert Generator(255)[1] == 0;
    } else {
      Gf256PowersDiffer(n);
      forall k | 0 <= k < n + 1 ensures Generator(n)[k] != 0 {
        GeneratorCoefficient(n, k);
        GaussianNonzero(Gf256(), n, k);
      }
    }
  }
}
