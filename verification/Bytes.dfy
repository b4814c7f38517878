/** Bytes, optional results and the big-endian counter field used by every on-disk format. */
module Bytes {

  newtype byte = x: int | 0 <= x < 0x100

  datatype Option<+T> = None | Some(value: T)

  // The number of values of a Go uint32; counters wrap at this modulus.
  const Uint32Count: int := 0x1_0000_0000

  function Min(x: nat, y: nat): nat {
    if x < y then x else y
  }

  /** The four bytes binary.BigEndian.PutUint32 stores. */
  function BigEndian32(n: nat): (s: seq<byte>)
    requires n < Uint32Count
    ensures |s| == 4
  {
    [(n / 0x100_0000) as byte,
     (n / 0x1_0000 % 0x100) as byte,
     (n / 0x100 % 0x100) as byte,
     (n % 0x100) as byte]
  }

  /** What binary.BigEndian.Uint32 reads back. */
  function FromBigEndian32(s: seq<byte>): nat
    requires |s| == 4
  {
    s[0] as int * 0x100_0000 + s[1] as int * 0x1_0000 + s[2] as int * 0x100 + s[3] as int
  }

  lemma BigEndianRoundTrip(n: nat)
    requires n < Uint32Count
    ensures FromBigEndian32(BigEndian32(n)) == n
  {
    assert n == n / 0x100 * 0x100 + n % 0x100;
    assert n / 0x100 == n / 0x1_0000 * 0x100 + n / 0x100 % 0x100;
    assert n / 0x1_0000 == n / 0x100_0000 * 0x100 + n / 0x1_0000 % 0x100;
  }

  lemma BigEndianInjective(m: nat, n: nat)
    requires m < Uint32Count && n < Uint32Count
    requires BigEndian32(m) == BigEndian32(n)
    ensures m == n
  {
    BigEndianRoundTrip(m);
    BigEndianRoundTrip(n);
  }

  /** s comes before t in lexicographic order: they agree up to some place, and there s is smaller. */
  predicate Precedes(s: seq<byte>, t: seq<byte>) {
    exists i | 0 <= i < |s| && i < |t| :: s[..i] == t[..i] && s[i] < t[i]
  }

  /** The first byte weighs most: numbers are ordered as their four bytes are. */
  lemma BigEndianOrdered(m: nat, n: nat)
    requires m < n < Uint32Count
    ensures Precedes(BigEndian32(m), BigEndian32(n))
  {
    var s, t := BigEndian32(m), BigEndian32(n);
    var i := if s[0] != t[0] then 0 else if s[1] != t[1] then 1 else if s[2] != t[2] then 2 else 3;
    BigEndianRoundTrip(m);
    BigEndianRoundTrip(n);
    assert s[..i] == t[..i];
    assert s[i] < t[i];
  }
}
