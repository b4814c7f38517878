/**
 Arithmetic in GF(256), as polynomials over GF(2) modulo x^8 + x^4 + x^3 + x^2 + 1, and the
 exponent and logarithm tables the QR generator multiplies with.
 */
module QrField {

  // ---------------------------------------------------------------- powers of alpha

  /** Multiplication by alpha = x: shift, and reduce the x^8 that falls out. */
  function XTime(v: bv8): bv8 {
    var top := v >> 7;
    (v << 1) ^ top ^ (top << 2) ^ (top << 3) ^ (top << 4)
  }

  /** alpha^k * v. */
  function Iter(k: nat, v: bv8): bv8 {
    if k == 0 then v else XTime(Iter(k - 1, v))
  }

  function Pow(k: nat): bv8 {
    Iter(k, 1)
  }

  lemma XTimeLinear(v: bv8, w: bv8)
    ensures XTime(v ^ w) == XTime(v) ^ XTime(w)
  {
  }

  lemma XTimeInjective(v: bv8, w: bv8)
    requires XTime(v) == XTime(w)
    ensures v == w
  {
  }

  lemma {:induction false} IterAdds(j: nat, k: nat, v: bv8)
    ensures Iter(j + k, v) == Iter(j, Iter(k, v))
  {
    if j > 0 { IterAdds(j - 1, k, v); }
  }

  lemma {:induction false} IterLinear(k: nat, v: bv8, w: bv8)
    ensures Iter(k, v ^ w) == Iter(k, v) ^ Iter(k, w)
  {
    if k > 0 {
      IterLinear(k - 1, v, w);
      XTimeLinear(Iter(k - 1, v), Iter(k - 1, w));
    }
  }

  lemma {:induction false} IterInjective(k: nat, v: bv8, w: bv8)
    requires Iter(k, v) == Iter(k, w)
    ensures v == w
  {
    if k > 0 {
      XTimeInjective(Iter(k - 1, v), Iter(k - 1, w));
      IterInjective(k - 1, v, w);
    }
  }

  lemma {:induction false} IterZero(k: nat)
    ensures Iter(k, 0) == 0
  {
    if k > 0 { IterZero(k - 1); }
  }

  // ---------------------------------------------------------------- alpha generates every nonzero byte

  function X4(v: bv8): bv8 {
    XTime(XTime(XTime(XTime(v))))
  }

  function X16(v: bv8): bv8 {
    X4(X4(X4(X4(v))))
  }

  lemma IterFour(k: nat)
    ensures Pow(k + 4) == X4(Pow(k))
  {
    assert Pow(k + 1) == XTime(Pow(k));
    assert Pow(k + 2) == XTime(Pow(k + 1));
    assert Pow(k + 3) == XTime(Pow(k + 2));
  }

  lemma IterSixteen(k: nat)
    ensures Pow(k + 16) == X16(Pow(k))
  {
    IterFour(k);
    IterFour(k + 4);
    IterFour(k + 8);
    IterFour(k + 12);
  }

  /** alpha^(16 j), for j below 16. */
  const Giants: seq<bv8> := [0x01, 0x4c, 0x9d, 0x46, 0x5f, 0xfd, 0xd9, 0x81,
                             0x85, 0xa8, 0xe6, 0xe3, 0x82, 0x51, 0x12, 0x2c]

  lemma GiantStep(v: bv8, w: bv8, j: nat)
    requires j < 15 && v == Giants[j] && w == Giants[j + 1]
    ensures X16(v) == w
  {
  }

  predicate IsGiant(v: bv8) {
    || v == 0x01 || v == 0x4c || v == 0x9d || v == 0x46 || v == 0x5f || v == 0xfd || v == 0xd9 || v == 0x81
    || v == 0x85 || v == 0xa8 || v == 0xe6 || v == 0xe3 || v == 0x82 || v == 0x51 || v == 0x12 || v == 0x2c
  }

  predicate GiantSoon(v: bv8) {
    IsGiant(v) || IsGiant(XTime(v)) || IsGiant(XTime(XTime(v))) || IsGiant(XTime(XTime(XTime(v))))
  }

  /** Any nonzero byte reaches one of them in fewer than sixteen steps. */
  lemma SomeGiant(v: bv8)
    requires v != 0
    ensures GiantSoon(v) || GiantSoon(X4(v)) || GiantSoon(X4(X4(v))) || GiantSoon(X4(X4(X4(v))))
  {
  }

  lemma {:induction false} GiantPower(j: nat)
    requires j < 16
    ensures Pow(16 * j) == Giants[j]
  {
    if j > 0 {
      GiantPower(j - 1);
      IterSixteen(16 * (j - 1));
      GiantStep(Giants[j - 1], Giants[j], j - 1);
    }
  }

  lemma GiantIndex(v: bv8) returns (j: nat)
    requires IsGiant(v)
    ensures j < 16 && Pow(16 * j) == v
  {
    assert v in Giants;
    j :| 0 <= j < 16 && Giants[j] == v;
    GiantPower(j);
  }

  lemma WrapStep()
    ensures X16(0x2c) == 2 && XTime(1) == 2
  {
  }

  /** alpha has order dividing 255. */
  lemma Period()
    ensures Pow(255) == 1
  {
    GiantPower(15);
    IterSixteen(240);
    WrapStep();
    assert Pow(256) == XTime(Pow(255));
    XTimeInjective(Pow(255), 1);
  }

  lemma FourMore(i: nat, v: bv8)
    ensures Iter(i + 1, v) == XTime(Iter(i, v)) && Iter(i + 2, v) == XTime(XTime(Iter(i, v)))
    ensures Iter(i + 3, v) == XTime(XTime(XTime(Iter(i, v)))) && Iter(i + 4, v) == X4(Iter(i, v))
  {
    assert Iter(i + 2, v) == XTime(Iter(i + 1, v));
    assert Iter(i + 3, v) == XTime(Iter(i + 2, v));
  }

  lemma SoonIndex(i: nat, v: bv8) returns (k: nat)
    requires GiantSoon(Iter(i, v))
    ensures i <= k < i + 4 && IsGiant(Iter(k, v))
  {
    FourMore(i, v);
    k := if IsGiant(Iter(i, v)) then i else if IsGiant(Iter(i + 1, v)) then i + 1
         else if IsGiant(Iter(i + 2, v)) then i + 2 else i + 3;
  }

  lemma StepsToGiant(v: bv8) returns (i: nat)
    requires v != 0
    ensures i < 16 && IsGiant(Iter(i, v))
  {
    SomeGiant(v);
    FourMore(0, v);
    FourMore(4, v);
    FourMore(8, v);
    var b := if GiantSoon(v) then 0 else if GiantSoon(X4(v)) then 4 else if GiantSoon(X4(X4(v))) then 8 else 12;
    i := SoonIndex(b, v);
  }

  lemma FindLog(v: bv8) returns (k: nat)
    requires v != 0
    ensures k < 255 && Pow(k) == v
  {
    var i := StepsToGiant(v);
    var j := GiantIndex(Iter(i, v));
    if 16 * j >= i {
      k := 16 * j - i;
      IterAdds(i, k, 1);
    } else {
      Period();
      k := 255 - i;
      IterAdds(i, k, 1);
    }
    IterInjective(i, v, Pow(k));
  }

  /** Every nonzero byte is a power of alpha. */
  lemma HasLog(v: bv8)
    requires v != 0
    ensures exists k: nat :: k < 255 && Pow(k) == v
  {
    var k := FindLog(v);
  }

  lemma {:induction false} PowNonzero(k: nat)
    ensures Pow(k) != 0
  {
    IterZero(k);
    if Pow(k) == 0 { IterInjective(k, 1, 0); }
  }

  lemma PowPeriod(k: nat)
    ensures Pow(k + 255) == Pow(k)
  {
    Period();
    IterAdds(k, 255, 1);
  }

  lemma {:induction false} PowModulo(k: nat)
    ensures Pow(k) == Pow(k % 255)
    decreases k
  {
    if k >= 255 {
      PowPeriod(k - 255);
      PowModulo(k - 255);
    }
  }

  // ---------------------------------------------------------------- the field

  ghost function Log(v: bv8): (k: nat)
    requires v != 0
    ensures k < 255 && Pow(k) == v
  {
    HasLog(v);
    var k: nat :| k < 255 && Pow(k) == v;
    k
  }

  /** Multiplication: the first factor as a power of alpha, applied to the second. */
  ghost function Times(a: bv8, b: bv8): bv8 {
    if a == 0 then 0 else Iter(Log(a), b)
  }

  lemma TimesPow(i: nat, b: bv8)
    ensures Times(Pow(i), b) == Iter(i, b)
  {
    PowNonzero(i);
    var k := Log(Pow(i));
    if b == 0 {
      IterZero(i);
      IterZero(k);
    } else {
      var m := Log(b);
      IterAdds(i, m, 1);
      IterAdds(m, i, 1);
      IterAdds(k, m, 1);
      IterAdds(m, k, 1);
    }
  }

  lemma TimesCommutes(a: bv8, b: bv8)
    ensures Times(a, b) == Times(b, a)
  {
    if a == 0 || b == 0 {
      if a != 0 { IterZero(Log(a)); }
      if b != 0 { IterZero(Log(b)); }
    } else {
      IterAdds(Log(a), Log(b), 1);
      IterAdds(Log(b), Log(a), 1);
    }
  }

  lemma TimesAssociates(a: bv8, b: bv8, c: bv8)
    ensures Times(a, Times(b, c)) == Times(Times(a, b), c)
  {
    if a == 0 {
    } else if b == 0 {
      IterZero(Log(a));
    } else {
      IterAdds(Log(a), Log(b), c);
      IterAdds(Log(a), Log(b), 1);
      TimesPow(Log(a) + Log(b), c);
    }
  }

  /** Multiplication distributes over addition, which is exclusive or. */
  lemma TimesDistributes(a: bv8, b: bv8, c: bv8)
    ensures Times(a, b ^ c) == Times(a, b) ^ Times(a, c)
    ensures Times(b ^ c, a) == Times(b, a) ^ Times(c, a)
  {
    if a != 0 { IterLinear(Log(a), b, c); }
    TimesCommutes(a, b ^ c);
    TimesCommutes(a, b);
    TimesCommutes(a, c);
  }

  lemma TimesOne(a: bv8)
    ensures Times(1, a) == a && Times(a, 1) == a && Times(a, 0) == 0 && Times(0, a) == 0
  {
    TimesPow(0, a);
    TimesCommutes(1, a);
    TimesCommutes(0, a);
  }

  lemma TimesNonzero(a: bv8, b: bv8)
    requires a != 0 && b != 0
    ensures Times(a, b) != 0
  {
    IterZero(Log(a));
    if Times(a, b) == 0 { IterInjective(Log(a), b, 0); }
  }
}
