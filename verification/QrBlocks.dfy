/** All blocks of a symbol: splitting the data, encoding each block, interleaving the codewords. */
module QrBlocks {
  import opened Bytes
  import opened QrField
  import opened QrTables
  import opened QrPolynomial
  import opened QrCodec

  datatype RsBlock = RsBlock(totalCount: nat, dataCount: nat)

  // ---------------------------------------------------------------- interleaving

  /** Byte i of the first r blocks, where they have one. */
  function Column(blocks: seq<Poly>, i: nat, r: nat): Poly
    requires r <= |blocks|
  {
    if r == 0 then [] else Column(blocks, i, r - 1) + (if i < |blocks[r - 1]| then [blocks[r - 1][i]] else [])
  }

  /** The first n columns. */
  function Columns(blocks: seq<Poly>, n: nat): Poly {
    if n == 0 then [] else Columns(blocks, n - 1) + Column(blocks, n - 1, |blocks|)
  }

  /** Where byte i of block r goes. */
  function Slot(blocks: seq<Poly>, i: nat, r: nat): nat
    requires r <= |blocks|
  {
    |Columns(blocks, i)| + |Column(blocks, i, r)|
  }

  function TotalLength(blocks: seq<Poly>): nat {
    if blocks == [] then 0 else TotalLength(blocks[..|blocks| - 1]) + |blocks[|blocks| - 1]|
  }

  predicate Within(blocks: seq<Poly>, n: nat) {
    forall r | 0 <= r < |blocks| :: |blocks[r]| <= n
  }

  lemma {:induction false} ColumnPlaces(blocks: seq<Poly>, i: nat, r: nat, s: nat)
    requires r < s <= |blocks| && i < |blocks[r]|
    ensures |Column(blocks, i, r)| < |Column(blocks, i, s)|
    ensures Column(blocks, i, s)[|Column(blocks, i, r)|] == blocks[r][i]
  {
    if r + 1 < s { ColumnPlaces(blocks, i, r, s - 1); }
  }

  /** Byte i of block r is found at its slot. */
  lemma {:induction false} SlotHolds(blocks: seq<Poly>, n: nat, i: nat, r: nat)
    requires r < |blocks| && i < |blocks[r]| && i < n
    ensures Slot(blocks, i, r) < |Columns(blocks, n)| && Columns(blocks, n)[Slot(blocks, i, r)] == blocks[r][i]
  {
    var before, last := Columns(blocks, n - 1), Column(blocks, n - 1, |blocks|);
    if i + 1 < n {
      SlotHolds(blocks, n - 1, i, r);
      assert Columns(blocks, n)[Slot(blocks, i, r)] == before[Slot(blocks, i, r)];
    } else {
      ColumnPlaces(blocks, i, r, |blocks|);
      assert Columns(blocks, n)[|before| + |Column(blocks, i, r)|] == last[|Column(blocks, i, r)|];
    }
  }

  lemma {:induction false} ColumnsGrow(blocks: seq<Poly>, i: nat, j: nat)
    requires i <= j
    ensures |Columns(blocks, i)| <= |Columns(blocks, j)|
  {
    if i < j { ColumnsGrow(blocks, i, j - 1); }
  }

  /** Different bytes go to different slots. */
  lemma SlotsDiffer(blocks: seq<Poly>, i: nat, r: nat, j: nat, s: nat)
    requires r < |blocks| && i < |blocks[r]| && s < |blocks| && j < |blocks[s]|
    requires i < j || (i == j && r < s)
    ensures Slot(blocks, i, r) < Slot(blocks, j, s)
  {
    if i < j {
      ColumnPlaces(blocks, i, r, |blocks|);
      ColumnsGrow(blocks, i + 1, j);
    } else {
      ColumnPlaces(blocks, i, r, s);
    }
  }

  lemma {:induction false} ColumnWithout(blocks: seq<Poly>, b: Poly, i: nat, r: nat)
    requires r <= |blocks|
    ensures Column(blocks + [b], i, r) == Column(blocks, i, r)
  {
    if r > 0 {
      ColumnWithout(blocks, b, i, r - 1);
      assert (blocks + [b])[r - 1] == blocks[r - 1];
    }
  }

  lemma {:induction false} ColumnsCount(blocks: seq<Poly>, b: Poly, n: nat)
    ensures |Columns(blocks + [b], n)| == |Columns(blocks, n)| + Min(n, |b|)
  {
    if n > 0 {
      ColumnsCount(blocks, b, n - 1);
      ColumnWithout(blocks, b, n - 1, |blocks|);
      assert (blocks + [b])[|blocks|] == b;
    }
  }

  /** With enough columns there are exactly as many slots as bytes: every byte is emitted exactly once. */
  lemma {:induction false} ColumnsTotal(blocks: seq<Poly>, n: nat)
    requires Within(blocks, n)
    ensures |Columns(blocks, n)| == TotalLength(blocks)
  {
    if blocks == [] {
      NoColumns(n);
    } else {
      var front, b := blocks[..|blocks| - 1], blocks[|blocks| - 1];
      assert blocks == front + [b];
      forall r | 0 <= r < |front| ensures |front[r]| <= n { assert front[r] == blocks[r]; }
      ColumnsTotal(front, n);
      ColumnsCount(front, b, n);
    }
  }

  lemma {:induction false} NoColumns(n: nat)
    ensures Columns([], n) == []
  {
    if n > 0 { NoColumns(n - 1); }
  }

  /** One of createBytes's two emission loops. */
  method Emit(blocks: seq<Poly>, maxCount: nat) returns (data: Poly)
    ensures data == Columns(blocks, maxCount)
  {
    data := [];
    for i := 0 to maxCount
      invariant data == Columns(blocks, i)
    {
      for r := 0 to |blocks|
        invariant data == Columns(blocks, i) + Column(blocks, i, r)
      {
        if i < |blocks[r]| { data := data + [blocks[r][i]]; }
      }
    }
  }

  // ---------------------------------------------------------------- createBytes

  /** The data bytes of a block; past the end of the buffer, zero. */
  function DataOf(buffer: Poly, offset: nat, count: nat): (d: Poly)
    ensures |d| == count
  {
    seq(count, i requires 0 <= i < count => if offset + i < |buffer| then buffer[offset + i] else 0)
  }

  function OffsetOf(blocks: seq<RsBlock>, r: nat): nat
    requires r <= |blocks|
  {
    if r == 0 then 0 else OffsetOf(blocks, r - 1) + blocks[r - 1].dataCount
  }

  /** Blocks below n are cut from the buffer in order and carry error correction with all syndromes zero. */
  ghost predicate Encoded(buffer: Poly, blocks: seq<RsBlock>, dcs: seq<Poly>, ecs: seq<Poly>, n: nat)
    requires n <= |blocks|
  {
    && |dcs| == |ecs| == n
    && forall r: nat | r < n :: EncodedAt(buffer, blocks, r, dcs[r], ecs[r])
  }

  /** One block's part of Encoded. */
  ghost predicate EncodedAt(buffer: Poly, blocks: seq<RsBlock>, r: nat, dc: Poly, ec: Poly)
    requires r < |blocks|
  {
    && dc == DataOf(buffer, OffsetOf(blocks, r), blocks[r].dataCount)
    && blocks[r].dataCount <= blocks[r].totalCount
    && |ec| == blocks[r].totalCount - blocks[r].dataCount
    && HasRoots(dc + ec, |ec|)
  }

  /** The bytes of all blocks, one block after the other. */
  function Joined(dcs: seq<Poly>): Poly {
    if dcs == [] then [] else Joined(dcs[..|dcs| - 1]) + dcs[|dcs| - 1]
  }

  /**
   The blocks have the sizes asked for, and put end to end they are the buffer, followed by zeros if it is
   too short and without what is too much.
   */
  ghost predicate Divided(buffer: Poly, blocks: seq<RsBlock>, dcs: seq<Poly>) {
    && |dcs| == |blocks| && (forall r | 0 <= r < |blocks| :: |dcs[r]| == blocks[r].dataCount)
    && (if |buffer| <= |Joined(dcs)| then Joined(dcs)[..|buffer|] == buffer else Joined(dcs) <= buffer)
    && (forall k | |buffer| <= k < |Joined(dcs)| :: Joined(dcs)[k] == 0)
  }

  lemma {:induction false} BlocksJoin(buffer: Poly, blocks: seq<RsBlock>, dcs: seq<Poly>, ecs: seq<Poly>, n: nat)
    requires n <= |blocks| && Encoded(buffer, blocks, dcs, ecs, n)
    ensures |Joined(dcs)| == OffsetOf(blocks, n)
    ensures Divided(buffer, blocks[..n], dcs)
  {
    if n > 0 {
      var front := dcs[..n - 1];
      assert Encoded(buffer, blocks, front, ecs[..n - 1], n - 1) by {
        forall r: nat | r < n - 1 ensures EncodedAt(buffer, blocks, r, front[r], ecs[..n - 1][r]) {
          assert EncodedAt(buffer, blocks, r, dcs[r], ecs[r]);
        }
      }
      BlocksJoin(buffer, blocks, front, ecs[..n - 1], n - 1);
      assert EncodedAt(buffer, blocks, n - 1, dcs[n - 1], ecs[n - 1]);
      JoinNext(buffer, Joined(front), dcs[n - 1]);
      assert forall r | 0 <= r < n - 1 :: |front[r]| == blocks[..n - 1][r].dataCount;
    }
  }

  /** The next block goes on where the ones before it end. */
  lemma JoinNext(buffer: Poly, before: Poly, d: Poly)
    requires if |buffer| <= |before| then before[..|buffer|] == buffer else before <= buffer
    requires forall k | |buffer| <= k < |before| :: before[k] == 0
    requires d == DataOf(buffer, |before|, |d|)
    ensures var joined := before + d;
            && (if |buffer| <= |joined| then joined[..|buffer|] == buffer else joined <= buffer)
            && forall k | |buffer| <= k < |joined| :: joined[k] == 0
  {
    var joined := before + d;
    forall k | 0 <= k < |joined| ensures joined[k] == if k < |buffer| then buffer[k] else 0 {
      if k < |before| { assert k < |buffer| ==> before[k] == buffer[k]; }
    }
  }

  lemma EncodedNext(buffer: Poly, blocks: seq<RsBlock>, dcs: seq<Poly>, ecs: seq<Poly>, n: nat, dc: Poly, ec: Poly)
    requires n < |blocks| && Encoded(buffer, blocks, dcs, ecs, n) && EncodedAt(buffer, blocks, n, dc, ec)
    ensures Encoded(buffer, blocks, dcs + [dc], ecs + [ec], n + 1)
  {
    forall r: nat | r < n + 1 ensures EncodedAt(buffer, blocks, r, (dcs + [dc])[r], (ecs + [ec])[r]) {
      if r < n { assert EncodedAt(buffer, blocks, r, dcs[r], ecs[r]); }
    }
  }

  lemma WithinNext(bs: seq<Poly>, b: Poly, m: nat, m': nat)
    requires Within(bs, m) && m <= m' && |b| <= m'
    ensures Within(bs + [b], m')
  {
  }

  /** The error correction of block r cannot be computed; with fewer than 255 bytes of it, it always can. */
  predicate BlockThrows(buffer: Poly, blocks: seq<RsBlock>, r: nat)
    requires r < |blocks| && blocks[r].dataCount <= blocks[r].totalCount
  {
    Throws(DataOf(buffer, OffsetOf(blocks, r), blocks[r].dataCount), blocks[r].totalCount - blocks[r].dataCount)
  }

  /**
   createBytes: the interleaved data bytes of all blocks, then their interleaved error correction.
   dcs and ecs are the blocks themselves; the former put end to end are the buffer.
   */
  method CreateBytes(m: QrMath, buffer: Poly, blocks: seq<RsBlock>)
    returns (data: Option<Poly>, dcs: seq<Poly>, ecs: seq<Poly>)
    requires m.Valid() && forall r | 0 <= r < |blocks| :: blocks[r].dataCount <= blocks[r].totalCount
    ensures data.Some? ==>
              && Encoded(buffer, blocks, dcs, ecs, |blocks|)
              && exists maxDc, maxEc :: Within(dcs, maxDc) && Within(ecs, maxEc)
                                        && data.value == Columns(dcs, maxDc) + Columns(ecs, maxEc)
    ensures data.Some? ==> |data.value| == TotalLength(dcs) + TotalLength(ecs)
    ensures data.Some? ==> Divided(buffer, blocks, dcs)
    ensures data.None? <==> exists r | 0 <= r < |blocks| :: BlockThrows(buffer, blocks, r)
  {
    var offset, maxDc, maxEc := 0, 0, 0;
    dcs, ecs := [], [];
    for r := 0 to |blocks|
      invariant m.Valid() && offset == OffsetOf(blocks, r) && maxDc >= 0 && maxEc >= 0
      invariant forall q | 0 <= q < r :: !BlockThrows(buffer, blocks, q)
      invariant Encoded(buffer, blocks, dcs, ecs, r) && Within(dcs, maxDc) && Within(ecs, maxEc)
    {
      var dcCount := blocks[r].dataCount;
      var ecCount := blocks[r].totalCount - dcCount;
      ghost var dcBefore, ecBefore := maxDc, maxEc;
      maxDc := if maxDc < dcCount then dcCount else maxDc;
      maxEc := if maxEc < ecCount then ecCount else maxEc;
      var dc := DataOf(buffer, offset, dcCount);
      offset := offset + dcCount;
      var ec := EncodeBlock(m, dc, ecCount);
      if ec == None {
        assert BlockThrows(buffer, blocks, r);
        return None, dcs, ecs;
      }
      EncodedNext(buffer, blocks, dcs, ecs, r, dc, ec.value);
      WithinNext(dcs, dc, dcBefore, maxDc);
      WithinNext(ecs, ec.value, ecBefore, maxEc);
      dcs, ecs := dcs + [dc], ecs + [ec.value];
    }
    var first := Emit(dcs, maxDc);
    var second := Emit(ecs, maxEc);
    ColumnsTotal(dcs, maxDc);
    ColumnsTotal(ecs, maxEc);
    BlocksJoin(buffer, blocks, dcs, ecs, |blocks|);
    data := Some(first + second);
  }
}
