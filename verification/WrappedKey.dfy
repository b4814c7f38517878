/** The data key wrapped under a password: its byte layout, reading it back, and refusing anything else. */
module WrappedKey {
  import opened Bytes
  import ChunkFormat

  const KeySize: int := 32
  const SaltSize: int := 16
  const NonceSize := ChunkFormat.NonceSize
  const TagSize := ChunkFormat.TagSize
  const HeadSize: int := 26
  const ArgonTime: nat := 3
  const ArgonMemory: nat := 0x1_0000
  const ArgonThreads: byte := 4
  const WrapVersion: byte := 1

  /** What one sealing under a key-encryption key took: key, nonce, plaintext, additional data. */
  type Entry = (seq<byte>, seq<byte>, seq<byte>, seq<byte>)

  /** The key derivation and the cipher; both are deterministic. */
  datatype Box = Box(
    kdf: (string, seq<byte>, nat, nat, byte) -> seq<byte>,
    seal: (seq<byte>, seq<byte>, seq<byte>, seq<byte>) -> seq<byte>,
    open: (seq<byte>, seq<byte>, seq<byte>, seq<byte>) -> Option<seq<byte>>)

  /** Exactly the logged sealings open, under their own key, nonce and additional data. */
  ghost predicate Ideal(b: Box, log: iset<Entry>) {
    && (forall k, n, p, ad :: |b.seal(k, n, p, ad)| == |p| + TagSize)
    && (forall k, n, p, ad :: (k, n, p, ad) in log ==> b.open(k, n, b.seal(k, n, p, ad), ad) == Some(p))
    && (forall k, n, c, ad :: b.open(k, n, c, ad).Some? ==>
          (k, n, b.open(k, n, c, ad).value, ad) in log && c == b.seal(k, n, b.open(k, n, c, ad).value, ad))
  }

  /** The parameter header, authenticated as additional data. */
  function Head(salt: seq<byte>): (h: seq<byte>)
    requires |salt| == SaltSize
    ensures |h| == HeadSize
  {
    [WrapVersion] + BigEndian32(ArgonTime) + BigEndian32(ArgonMemory) + [ArgonThreads] + salt
  }

  /** The header's bytes: version 1, three passes, 64 MiB, four threads, the salt; and its derivation uses those. */
  lemma HeadLayout(b: Box, password: string, salt: seq<byte>)
    requires |salt| == SaltSize
    ensures Head(salt) == [1, 0, 0, 0, 3, 0, 1, 0, 0, 4] + salt
    ensures Kek(b, password, salt) == b.kdf(password, salt, 3, 65_536, 4)
  {
    assert BigEndian32(3) == [0, 0, 0, 3] && BigEndian32(65_536) == [0, 1, 0, 0];
  }

  function Kek(b: Box, password: string, salt: seq<byte>): seq<byte> {
    b.kdf(password, salt, ArgonTime, ArgonMemory, ArgonThreads)
  }

  /** The layout of a wrapped key: header, nonce, sealed key. */
  function Wrapped(b: Box, dek: seq<byte>, password: string, salt: seq<byte>, nonce: seq<byte>): seq<byte>
    requires |salt| == SaltSize
  {
    Head(salt) + nonce + b.seal(Kek(b, password, salt), nonce, dek, Head(salt))
  }

  /** WrapKey with the salt and nonce it drew; None for a key of the wrong size. */
  method WrapKey(b: Box, dek: seq<byte>, password: string, salt: seq<byte>, nonce: seq<byte>)
    returns (r: Option<seq<byte>>)
    requires |salt| == SaltSize && |nonce| == NonceSize
    ensures r.None? <==> |dek| != 32
    ensures r.Some? ==> r.value == Wrapped(b, dek, password, salt, nonce)
  {
    if |dek| != KeySize { return None; }
    var kek := b.kdf(password, salt, ArgonTime, ArgonMemory, ArgonThreads);
    var out := [WrapVersion];
    out := out + BigEndian32(ArgonTime);
    out := out + BigEndian32(ArgonMemory);
    out := out + [ArgonThreads];
    out := out + salt;
    out := out + nonce;
    assert out == Head(salt) + nonce;
    assert out[..HeadSize] == Head(salt);
    out := out + b.seal(kek, nonce, dek, out[..HeadSize]);
    r := Some(out);
  }

  /** Panics is the end of the call in the key derivation, which insists on a time and threads of at least one. */
  datatype Unwrapped = Key(dek: seq<byte>) | WrongPassword | UnknownVersion | Panics

  /** The parameters the key derivation takes. */
  predicate Derivable(head: seq<byte>)
    requires |head| == HeadSize
  {
    FromBigEndian32(head[1..5]) >= 1 && head[9] >= 1
  }

  /** The derivation panics exactly on a header whose time field is all zeros, or whose thread count is zero. */
  lemma UnderivableIff(head: seq<byte>)
    requires |head| == HeadSize
    ensures !Derivable(head) <==> head[1..5] == [0, 0, 0, 0] || head[9] == 0
  {
    var time := head[1..5];
    assert time == [time[0], time[1], time[2], time[3]];
  }

  /** UnwrapKey. */
  function UnwrapKey(b: Box, wrapped: seq<byte>, password: string): Unwrapped {
    if |wrapped| < HeadSize + NonceSize + TagSize then WrongPassword
    else if wrapped[0] != WrapVersion then UnknownVersion
    else if !Derivable(wrapped[..HeadSize]) then Panics
    else
      var kek := b.kdf(password, wrapped[10..HeadSize], FromBigEndian32(wrapped[1..5]),
                       FromBigEndian32(wrapped[5..9]), wrapped[9]);
      match b.open(kek, wrapped[HeadSize .. HeadSize + NonceSize], wrapped[HeadSize + NonceSize ..],
                   wrapped[..HeadSize])
      case None => WrongPassword
      case Some(dek) => if |dek| == KeySize then Key(dek) else WrongPassword
  }

  /** The key-encryption key a header's own parameters derive from a password. */
  function KekFor(b: Box, head: seq<byte>, password: string): seq<byte>
    requires |head| == HeadSize
  {
    b.kdf(password, head[10..], FromBigEndian32(head[1..5]), FromBigEndian32(head[5..9]), head[9])
  }

  /** The bytes are what the sealing e was stored as, and the password derives its key from its own header. */
  predicate Spells(b: Box, e: Entry, wrapped: seq<byte>, password: string) {
    var (kek, nonce, dek, head) := e;
    && |head| == HeadSize && |nonce| == NonceSize && |dek| == KeySize && head[0] == WrapVersion && Derivable(head)
    && kek == KekFor(b, head, password)
    && wrapped == head + nonce + b.seal(kek, nonce, dek, head)
  }

  /** A wrapped key falls apart into what it was put together from. */
  lemma Parts(head: seq<byte>, nonce: seq<byte>, c: seq<byte>)
    requires |head| == HeadSize && |nonce| == NonceSize
    ensures var w := head + nonce + c;
            && w[..HeadSize] == head && w[HeadSize .. HeadSize + NonceSize] == nonce && w[HeadSize + NonceSize ..] == c
            && w[1..5] == head[1..5] && w[5..9] == head[5..9] && w[10..HeadSize] == head[10..]
  {
  }

  /**
   Whatever else was sealed, under whatever keys: unwrapping gives a key exactly if some sealing of
   it is what the bytes spell under that password.  Any change to header, nonce or ciphertext that
   does not make the bytes another such sealing is refused.
   */
  lemma UnwrapsExactly(b: Box, log: iset<Entry>, wrapped: seq<byte>, password: string, dek: seq<byte>)
    requires Ideal(b, log)
    ensures UnwrapKey(b, wrapped, password) == Key(dek)
            <==> exists e: Entry :: e in log && e.2 == dek && Spells(b, e, wrapped, password)
  {
    if |wrapped| >= HeadSize + NonceSize + TagSize {
      var head, nonce := wrapped[..HeadSize], wrapped[HeadSize .. HeadSize + NonceSize];
      var c := wrapped[HeadSize + NonceSize ..];
      assert wrapped == head + nonce + c;
      Parts(head, nonce, c);
      var e := (KekFor(b, head, password), nonce, dek, head);
      if UnwrapKey(b, wrapped, password) == Key(dek) {
        assert e in log && Spells(b, e, wrapped, password);
      }
    }
    forall e: Entry | e in log && e.2 == dek && Spells(b, e, wrapped, password)
      ensures UnwrapKey(b, wrapped, password) == Key(dek)
    {
      SpelledUnwraps(b, log, e, wrapped, password);
    }
  }

  lemma SpelledUnwraps(b: Box, log: iset<Entry>, e: Entry, wrapped: seq<byte>, password: string)
    requires Ideal(b, log) && e in log && Spells(b, e, wrapped, password)
    ensures UnwrapKey(b, wrapped, password) == Key(e.2)
  {
    var (kek, nonce, dek, head) := e;
    Parts(head, nonce, b.seal(kek, nonce, dek, head));
  }

  /** The fields UnwrapKey reads are the ones WrapKey wrote, big-endian numbers included. */
  lemma HeadFields(b: Box, salt: seq<byte>, password: string)
    requires |salt| == SaltSize
    ensures Head(salt)[0] == WrapVersion && Derivable(Head(salt))
    ensures KekFor(b, Head(salt), password) == Kek(b, password, salt)
  {
    var h := Head(salt);
    assert h[1..5] == BigEndian32(ArgonTime) && h[5..9] == BigEndian32(ArgonMemory) && h[10..] == salt;
    BigEndianRoundTrip(ArgonTime);
    BigEndianRoundTrip(ArgonMemory);
  }

  /** What WrapKey wrote unwraps to the key it wrapped, under the same password and among any other sealings. */
  lemma WrapRoundTrip(b: Box, log: iset<Entry>, dek: seq<byte>, password: string, salt: seq<byte>, nonce: seq<byte>)
    requires |dek| == KeySize && |salt| == SaltSize && |nonce| == NonceSize
    requires Ideal(b, log) && (Kek(b, password, salt), nonce, dek, Head(salt)) in log
    ensures UnwrapKey(b, Wrapped(b, dek, password, salt, nonce), password) == Key(dek)
  {
    HeadFields(b, salt, password);
    SpelledUnwraps(b, log, (Kek(b, password, salt), nonce, dek, Head(salt)),
                   Wrapped(b, dek, password, salt, nonce), password);
  }

  /**
   With one wrapped key in existence, unwrapping succeeds exactly on its own bytes and with a
   password that derives the same key-encryption key; then it gives the wrapped key.
   */
  lemma UnwrapsOnlyItself(b: Box, dek: seq<byte>, password: string, salt: seq<byte>, nonce: seq<byte>,
                          wrapped: seq<byte>, password': string)
    requires |dek| == KeySize && |salt| == SaltSize && |nonce| == NonceSize
    requires Ideal(b, iset{(Kek(b, password, salt), nonce, dek, Head(salt))})
    ensures var own := Wrapped(b, dek, password, salt, nonce);
            UnwrapKey(b, wrapped, password')
            == if wrapped == own && Kek(b, password', salt) == Kek(b, password, salt) then Key(dek)
               else if |wrapped| < HeadSize + NonceSize + TagSize then WrongPassword
               else if wrapped[0] != WrapVersion then UnknownVersion
               else if !Derivable(wrapped[..HeadSize]) then Panics
               else WrongPassword
  {
    var log := iset{(Kek(b, password, salt), nonce, dek, Head(salt))};
    HeadFields(b, salt, password');
    match UnwrapKey(b, wrapped, password')
    case Key(k) => UnwrapsExactly(b, log, wrapped, password', k);
    case _ => UnwrapsExactly(b, log, wrapped, password', dek);
  }

  function ToySeal(p: seq<byte>): (c: seq<byte>)
    ensures |c| == |p| + TagSize && c[..|p|] == p
  {
    p + seq(TagSize, _ => 0)
  }

  /** Opens what was logged, and nothing else. */
  ghost function ToyOpen(log: iset<Entry>, k: seq<byte>, n: seq<byte>, c: seq<byte>, ad: seq<byte>): Option<seq<byte>> {
    if |c| < TagSize then None
    else
      var p := c[..|c| - TagSize];
      if (k, n, p, ad) in log && c == ToySeal(p) then Some(p) else None
  }

  /** The ideal cipher is not a contradiction: every log has one, whatever the key derivation. */
  lemma IdealExists(log: iset<Entry>, kdf: (string, seq<byte>, nat, nat, byte) -> seq<byte>)
    ensures exists b: Box :: b.kdf == kdf && Ideal(b, log)
  {
    var b := Box(kdf, (k, n, p, ad) => ToySeal(p), (k, n, c, ad) => ToyOpen(log, k, n, c, ad));
    forall k, n, p, ad ensures |b.seal(k, n, p, ad)| == |p| + TagSize {
    }
    forall k, n, p, ad | (k, n, p, ad) in log ensures b.open(k, n, b.seal(k, n, p, ad), ad) == Some(p) {
      assert b.seal(k, n, p, ad) == ToySeal(p);
    }
    forall k, n, c, ad | b.open(k, n, c, ad).Some?
      ensures (k, n, b.open(k, n, c, ad).value, ad) in log && c == b.seal(k, n, b.open(k, n, c, ad).value, ad)
    {
      assert b.open(k, n, c, ad) == ToyOpen(log, k, n, c, ad);
    }
  }
}
