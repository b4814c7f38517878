/** The generator's exponent and logarithm tables, and their lookups. */
module QrTables {
  import opened Bytes
  import opened QrField

  lemma FirstPowers(i: nat)
    requires i < 8
    ensures Pow(i) == 1 << i
  {
    FourMore(0, 1);
    FourMore(4, 1);
  }

  lemma Recurrence(v: bv8)
    ensures XTime(XTime(XTime(XTime(XTime(XTime(XTime(XTime(v))))))))
         == X4(v) ^ XTime(XTime(XTime(v))) ^ XTime(XTime(v)) ^ v
  {
  }

  /** The table's recurrence holds of the powers of alpha. */
  lemma PowRecurrence(i: nat)
    requires i >= 8
    ensures Pow(i) == Pow(i - 4) ^ Pow(i - 5) ^ Pow(i - 6) ^ Pow(i - 8)
  {
    FourMore(i - 8, 1);
    FourMore(i - 4, 1);
    Recurrence(Pow(i - 8));
  }

  /** The logarithm table has a right entry for v. */
  ghost predicate GoodEntry(log: array<nat>, v: bv8)
    reads log
  {
    log.Length == 256 && log[v as int] < 255 && Pow(log[v as int]) == v
  }

  /** The entries up to (exclusive) n are powers of alpha. */
  ghost predicate PowersTo(e: array<bv8>, n: nat)
    requires n <= e.Length
    reads e
  {
    forall k | 0 <= k < n :: e[k] == Pow(k)
  }

  method SetPower(e: array<bv8>, i: nat, power: bv8)
    requires i < e.Length && power == Pow(i) && PowersTo(e, i)
    modifies e
    ensures PowersTo(e, i + 1)
  {
    e[i] := power;
  }

  lemma Combines(i: nat, a: bv8, b: bv8, c: bv8, d: bv8)
    requires i >= 8 && a == Pow(i - 4) && b == Pow(i - 5) && c == Pow(i - 6) && d == Pow(i - 8)
    ensures a ^ b ^ c ^ d == Pow(i)
  {
    PowRecurrence(i);
  }

  /** One round of the recurrence. */
  method NextPower(e: array<bv8>, i: nat) returns (power: bv8)
    requires 8 <= i < e.Length && PowersTo(e, i)
    ensures power == Pow(i)
  {
    var a, b, c, d := e[i - 4], e[i - 5], e[i - 6], e[i - 8];
    power := a ^ b ^ c ^ d;
    Combines(i, a, b, c, d);
  }

  /** The first eight entries are single bits. */
  method FillShifts(e: array<bv8>)
    requires e.Length == 256
    modifies e
    ensures PowersTo(e, 8)
  {
    for i := 0 to 8
      invariant PowersTo(e, i)
    {
      FirstPowers(i);
      var power: bv8 := 1 << i;
      SetPower(e, i, power);
    }
  }

  method FillExp() returns (e: array<bv8>)
    ensures fresh(e) && e.Length == 256 && PowersTo(e, 256)
  {
    e := new bv8[256](_ => 0);
    FillShifts(e);
    for i := 8 to 256
      invariant PowersTo(e, i)
    {
      var power := NextPower(e, i);
      SetPower(e, i, power);
    }
  }

  method FillLog(e: array<bv8>) returns (l: array<nat>)
    requires e.Length == 256 && PowersTo(e, 256)
    ensures fresh(l) && l.Length == 256 && forall v: bv8 | v != 0 :: GoodEntry(l, v)
  {
    l := new nat[256](_ => 0);
    for i := 0 to 255
      invariant forall k | 0 <= k < i :: GoodEntry(l, e[k])
    {
      label before:
      l[e[i] as int] := i;
      forall k | 0 <= k < i ensures GoodEntry(l, e[k]) {
        if e[k] as int != e[i] as int {
          assert old@before(GoodEntry(l, e[k]));
        } else {
          assert e[k] == e[i];
        }
      }
    }
    forall v: bv8 | v != 0 ensures GoodEntry(l, v) {
      var k := FindLog(v);
      assert e[k] == v;
    }
  }

  class QrMath {
    const exp: array<bv8>
    const log: array<nat>

    /** Entry i of the one is alpha^i; the other finds, for every nonzero byte, such an i. */
    ghost predicate Valid()
      reads exp, log
    {
      && exp.Length == 256 && log.Length == 256
      && PowersTo(exp, 256)
      && (forall v: bv8 | v != 0 :: GoodEntry(log, v))
    }

    constructor ()
      ensures Valid() && fresh(exp) && fresh(log)
    {
      var e := FillExp();
      var l := FillLog(e);
      exp, log := e, l;
    }

    /** The logarithm; the source throws for zero. */
    method Glog(n: bv8) returns (r: Option<nat>)
      requires Valid()
      ensures r.None? <==> n == 0
      ensures r.Some? ==> r.value < 255 && Pow(r.value) == n
    {
      if n < 1 { return None; }
      assert GoodEntry(log, n);
      r := Some(log[n as int]);
    }

    /** The power, for any integer exponent. */
    method Gexp(n: int) returns (r: bv8)
      requires Valid()
      ensures r == Pow(n % 255)
    {
      var m := n;
      while m < 0
        invariant m % 255 == n % 255 && (m < 0 || m < 255 || m == n)
      {
        m := m + 255;
      }
      while m >= 256
        invariant m >= 0 && m % 255 == n % 255
      {
        m := m - 255;
      }
      PowModulo(m);
      r := exp[m];
    }
  }
}
