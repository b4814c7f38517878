/**
 Placing the code bits in a QR symbol (section 7.7.3 of ISO/IEC 18004:2015): two-module columns
 from right to left, alternately upwards and downwards, skipping the vertical timing column.
 */
module QrMatrix {
  import opened Bytes

  const TimingColumn := 6

  /** The side of a symbol of a version. */
  predicate IsSide(n: int) {
    n >= 21 && n % 4 == 1
  }

  /** A place in the walk: column pair, step along it, and right or left module of the pair. */
  datatype Place = Place(pair: nat, step: nat, side: nat)

  predicate InWalk(n: nat, w: Place) {
    w.pair < (n - 1) / 2 && w.step < n && w.side < 2
  }

  /** The right-hand column of a pair. */
  function PairColumn(n: nat, pair: nat): int {
    var c := n - 1 - 2 * pair;
    if c <= TimingColumn then c - 1 else c
  }

  function Row(n: nat, w: Place): int {
    if w.pair % 2 == 0 then n - 1 - w.step else w.step
  }

  function Column(n: nat, w: Place): int {
    PairColumn(n, w.pair) - w.side
  }

  /** Where in the walk a module outside the timing column comes. */
  function PlaceOf(n: nat, row: int, col: int): (w: Place)
    requires IsSide(n) && 0 <= row < n && 0 <= col < n && col != TimingColumn
    ensures InWalk(n, w) && Row(n, w) == row && Column(n, w) == col
  {
    var back := if col > TimingColumn then n - 1 - col else n - 2 - col;
    var pair := back / 2;
    Place(pair, if pair % 2 == 0 then n - 1 - row else row, back % 2)
  }

  /** The walk visits every module outside the timing column, and no module twice. */
  lemma WalkIsBijective(n: nat, w: Place)
    requires IsSide(n) && InWalk(n, w)
    ensures 0 <= Row(n, w) < n && 0 <= Column(n, w) < n && Column(n, w) != TimingColumn
    ensures PlaceOf(n, Row(n, w), Column(n, w)) == w
  {
  }

  /** u is visited before w. */
  predicate Earlier(u: Place, w: Place) {
    || u.pair < w.pair
    || (u.pair == w.pair && u.step < w.step)
    || (u.pair == w.pair && u.step == w.step && u.side < w.side)
  }

  /** The modules before any data is placed; None is free. */
  type Grid = (int, int) -> Option<bool>

  predicate Free(n: nat, g: Grid, w: Place) {
    g(Row(n, w), Column(n, w)).None?
  }

  /** The place visited just before w, if any. */
  function Previous(n: nat, w: Place): Option<Place>
    requires n > 0
  {
    if w.side > 0 then Some(Place(w.pair, w.step, w.side - 1))
    else if w.step > 0 then Some(Place(w.pair, w.step - 1, 1))
    else if w.pair > 0 then Some(Place(w.pair - 1, n - 1, 1))
    else None
  }

  /** How many free modules the walk meets before w: the number of the bit that belongs at w. */
  function FreeBefore(n: nat, g: Grid, w: Place): nat
    requires n > 0
    decreases w.pair, w.step, w.side
  {
    match Previous(n, w)
    case None => 0
    case Some(u) => FreeBefore(n, g, u) + (if Free(n, g, u) then 1 else 0)
  }

  /** Bit k of the code bytes, most significant first; past the end, zero. */
  function Bit(data: seq<bv8>, k: nat): bool {
    k / 8 < |data| && ((data[k / 8] >> (7 - k % 8)) & 1) == 1
  }

  /** What a free module gets: its bit, flipped where the mask says so. */
  function Coded(n: nat, g: Grid, data: seq<bv8>, mask: (int, int) -> bool, row: int, col: int): bool
    requires IsSide(n) && 0 <= row < n && 0 <= col < n && col != TimingColumn
  {
    Bit(data, FreeBefore(n, g, PlaceOf(n, row, col))) != mask(row, col)
  }

  /** The modules once the walk has reached w. */
  function Placed(n: nat, g: Grid, data: seq<bv8>, mask: (int, int) -> bool, w: Place, row: int, col: int): Option<bool>
    requires IsSide(n) && 0 <= row < n && 0 <= col < n
  {
    if col != TimingColumn && g(row, col).None? && Earlier(PlaceOf(n, row, col), w)
    then Some(Coded(n, g, data, mask, row, col)) else g(row, col)
  }

  ghost predicate Reached(modules: array2<Option<bool>>, n: nat, g: Grid, data: seq<bv8>,
                          mask: (int, int) -> bool, w: Place)
    requires IsSide(n) && modules.Length0 == n && modules.Length1 == n
    reads modules
  {
    forall r, c | 0 <= r < n && 0 <= c < n :: modules[r, c] == Placed(n, g, data, mask, w, r, c)
  }

  /** The bit counters stand at bit k. */
  predicate AtBit(bitIndex: int, byteIndex: int, k: nat) {
    0 <= bitIndex <= 7 && byteIndex >= 0 && byteIndex * 8 + (7 - bitIndex) == k
  }

  function Next(w: Place): Place {
    if w.side == 0 then Place(w.pair, w.step, 1) else Place(w.pair, w.step + 1, 0)
  }

  /** One module of the walk. */
  method PlaceModule(modules: array2<Option<bool>>, row: int, col: int, data: seq<bv8>, mask: (int, int) -> bool,
                     bitIndex: int, byteIndex: int, ghost n: nat, ghost g: Grid, ghost w: Place)
    returns (bitIndex': int, byteIndex': int)
    requires IsSide(n) && modules.Length0 == n && modules.Length1 == n && InWalk(n, w)
    requires row == Row(n, w) && col == Column(n, w)
    requires Reached(modules, n, g, data, mask, w) && AtBit(bitIndex, byteIndex, FreeBefore(n, g, w))
    modifies modules
    ensures Reached(modules, n, g, data, mask, Next(w)) && AtBit(bitIndex', byteIndex', FreeBefore(n, g, Next(w)))
  {
    WalkIsBijective(n, w);
    PlacedNext(n, g, data, mask, w, row, col);
    CountersRead(data, bitIndex, byteIndex, FreeBefore(n, g, w));
    bitIndex', byteIndex' := bitIndex, byteIndex;
    if modules[row, col] == None {
      var dark := false;
      if byteIndex < |data| {
        dark := ((data[byteIndex] >> bitIndex) & 1) == 1;
      }
      if mask(row, col) { dark := !dark; }
      modules[row, col] := Some(dark);
      bitIndex' := bitIndex' - 1;
      if bitIndex' == -1 { byteIndex', bitIndex' := byteIndex' + 1, 7; }
    }
    forall r, c | 0 <= r < n && 0 <= c < n ensures modules[r, c] == Placed(n, g, data, mask, Next(w), r, c) {
      PlacedNext(n, g, data, mask, w, r, c);
    }
  }

  lemma CountersRead(data: seq<bv8>, bitIndex: int, byteIndex: int, k: nat)
    requires AtBit(bitIndex, byteIndex, k)
    ensures Bit(data, k) == (byteIndex < |data| && ((data[byteIndex] >> bitIndex) & 1) == 1)
  {
    assert k / 8 == byteIndex && k % 8 == 7 - bitIndex;
  }

  /** Moving on from w places the module of w, if it was free, and no other. */
  lemma PlacedNext(n: nat, g: Grid, data: seq<bv8>, mask: (int, int) -> bool, w: Place, r: int, c: int)
    requires IsSide(n) && InWalk(n, w) && 0 <= r < n && 0 <= c < n
    ensures Placed(n, g, data, mask, Next(w), r, c)
         == if r == Row(n, w) && c == Column(n, w) && Free(n, g, w)
            then Some(Bit(data, FreeBefore(n, g, w)) != mask(r, c)) else Placed(n, g, data, mask, w, r, c)
    ensures r == Row(n, w) && c == Column(n, w) ==> Placed(n, g, data, mask, w, r, c) == g(r, c)
  {
    WalkIsBijective(n, w);
    if c != TimingColumn && (r != Row(n, w) || c != Column(n, w)) { OtherPlace(n, w, r, c); }
  }

  /** Moving on from w makes w earlier, and nothing else. */
  lemma OtherPlace(n: nat, w: Place, r: int, c: int)
    requires IsSide(n) && InWalk(n, w) && 0 <= r < n && 0 <= c < n && c != TimingColumn
    requires r != Row(n, w) || c != Column(n, w)
    ensures Earlier(PlaceOf(n, r, c), Next(w)) <==> Earlier(PlaceOf(n, r, c), w)
  {
  }

  /** The end of a column pair is the start of the next. */
  lemma PairEnds(n: nat, g: Grid, pair: nat)
    requires IsSide(n)
    ensures FreeBefore(n, g, Place(pair, n, 0)) == FreeBefore(n, g, Place(pair + 1, 0, 0))
    ensures forall u | InWalk(n, u) :: Earlier(u, Place(pair, n, 0)) <==> Earlier(u, Place(pair + 1, 0, 0))
  {
  }

  lemma ReachedNextPair(modules: array2<Option<bool>>, n: nat, g: Grid, data: seq<bv8>,
                        mask: (int, int) -> bool, pair: nat)
    requires IsSide(n) && modules.Length0 == n && modules.Length1 == n
    requires Reached(modules, n, g, data, mask, Place(pair, n, 0))
    ensures Reached(modules, n, g, data, mask, Place(pair + 1, 0, 0))
  {
    PairEnds(n, g, pair);
    forall r, c | 0 <= r < n && 0 <= c < n
      ensures modules[r, c] == Placed(n, g, data, mask, Place(pair + 1, 0, 0), r, c)
    {
      assert modules[r, c] == Placed(n, g, data, mask, Place(pair, n, 0), r, c);
    }
  }

  /** The two modules of a pair in one row. */
  method PlaceRow(modules: array2<Option<bool>>, row: int, col: int, data: seq<bv8>, mask: (int, int) -> bool,
                  bitIndex: int, byteIndex: int, ghost n: nat, ghost g: Grid, ghost pair: nat, ghost step: nat)
    returns (bitIndex': int, byteIndex': int)
    requires IsSide(n) && modules.Length0 == n && modules.Length1 == n && InWalk(n, Place(pair, step, 0))
    requires row == Row(n, Place(pair, step, 0)) && col == PairColumn(n, pair)
    requires Reached(modules, n, g, data, mask, Place(pair, step, 0))
    requires AtBit(bitIndex, byteIndex, FreeBefore(n, g, Place(pair, step, 0)))
    modifies modules
    ensures Reached(modules, n, g, data, mask, Place(pair, step + 1, 0))
    ensures AtBit(bitIndex', byteIndex', FreeBefore(n, g, Place(pair, step + 1, 0)))
  {
    bitIndex', byteIndex' := bitIndex, byteIndex;
    ghost var w := Place(pair, step, 0);
    for c := 0 to 2
      invariant w == (if c == 2 then Place(pair, step + 1, 0) else Place(pair, step, c))
      invariant Reached(modules, n, g, data, mask, w) && AtBit(bitIndex', byteIndex', FreeBefore(n, g, w))
    {
      bitIndex', byteIndex' := PlaceModule(modules, row, col - c, data, mask, bitIndex', byteIndex', n, g, w);
      w := Next(w);
    }
  }

  /** Upwards in every other pair, from the bottom row. */
  function Direction(pair: nat): int {
    if pair % 2 == 0 then -1 else 1
  }

  function StartRow(n: nat, pair: nat): int {
    if pair % 2 == 0 then n - 1 else 0
  }

  /** One column pair, walked to its end, where the direction turns. */
  method WalkPair(modules: array2<Option<bool>>, col: int, inc: int, row: int, data: seq<bv8>, mask: (int, int) -> bool,
                  bitIndex: int, byteIndex: int, ghost n: nat, ghost g: Grid, ghost pair: nat)
    returns (inc': int, row': int, bitIndex': int, byteIndex': int)
    requires IsSide(n) && modules.Length0 == n && modules.Length1 == n && pair < (n - 1) / 2
    requires col == PairColumn(n, pair)
    requires inc == (if pair % 2 == 0 then -1 else 1) && row == (if pair % 2 == 0 then n - 1 else 0)
    requires Reached(modules, n, g, data, mask, Place(pair, 0, 0))
    requires AtBit(bitIndex, byteIndex, FreeBefore(n, g, Place(pair, 0, 0)))
    modifies modules
    ensures inc' == -inc && row' == (if pair % 2 == 0 then 0 else n - 1)
    ensures Reached(modules, n, g, data, mask, Place(pair + 1, 0, 0))
    ensures AtBit(bitIndex', byteIndex', FreeBefore(n, g, Place(pair + 1, 0, 0)))
  {
    inc', row', bitIndex', byteIndex' := inc, row, bitIndex, byteIndex;
    ghost var step := 0;
    while true
      invariant step < n && inc' == inc && row' == Row(n, Place(pair, step, 0))
      invariant Reached(modules, n, g, data, mask, Place(pair, step, 0))
      invariant AtBit(bitIndex', byteIndex', FreeBefore(n, g, Place(pair, step, 0)))
      decreases n - step
    {
      bitIndex', byteIndex' := PlaceRow(modules, row', col, data, mask, bitIndex', byteIndex', n, g, pair, step);
      row' := row' + inc';
      step := step + 1;
      if row' < 0 || modules.Length0 <= row' {
        row' := row' - inc';
        inc' := -inc';
        break;
      }
    }
    assert step == n;
    PairEnds(n, g, pair);
    ReachedNextPair(modules, n, g, data, mask, pair);
  }

  /** The right-hand column the outer loop stands at before pair, the timing column not yet skipped. */
  function HeadColumn(n: nat, pair: nat): int {
    if n - 1 - 2 * pair >= TimingColumn then n - 1 - 2 * pair else n - 2 - 2 * pair
  }

  lemma HeadColumnLeft(n: nat, pair: nat)
    requires IsSide(n) && pair <= (n - 1) / 2
    ensures HeadColumn(n, pair) > 0 <==> pair < (n - 1) / 2
  {
  }

  /** One round of the outer loop. */
  method WalkColumns(modules: array2<Option<bool>>, col: int, inc: int, row: int,
                     data: seq<bv8>, mask: (int, int) -> bool,
                     bitIndex: int, byteIndex: int, ghost n: nat, ghost g: Grid, ghost pair: nat)
    returns (col': int, inc': int, row': int, bitIndex': int, byteIndex': int)
    requires IsSide(n) && modules.Length0 == n && modules.Length1 == n && pair < (n - 1) / 2
    requires col == HeadColumn(n, pair)
    requires inc == Direction(pair) && row == StartRow(n, pair)
    requires Reached(modules, n, g, data, mask, Place(pair, 0, 0))
    requires AtBit(bitIndex, byteIndex, FreeBefore(n, g, Place(pair, 0, 0)))
    modifies modules
    ensures col' == HeadColumn(n, pair + 1)
    ensures inc' == Direction(pair + 1) && row' == StartRow(n, pair + 1)
    ensures Reached(modules, n, g, data, mask, Place(pair + 1, 0, 0))
    ensures AtBit(bitIndex', byteIndex', FreeBefore(n, g, Place(pair + 1, 0, 0)))
  {
    col' := if col == TimingColumn then col - 1 else col;
    inc', row', bitIndex', byteIndex' := WalkPair(modules, col', inc, row, data, mask, bitIndex, byteIndex, n, g, pair);
    col' := col' - 2;
  }

  /** The outer loop. */
  method WalkAll(modules: array2<Option<bool>>, n: nat, data: seq<bv8>, mask: (int, int) -> bool, ghost g: Grid)
    requires IsSide(n) && modules.Length0 == n && modules.Length1 == n
    requires Reached(modules, n, g, data, mask, Place(0, 0, 0))
    modifies modules
    ensures Reached(modules, n, g, data, mask, Place((n - 1) / 2, 0, 0))
  {
    var inc, row, bitIndex, byteIndex := -1, n - 1, 7, 0;
    var col := n - 1;
    ghost var pair := 0;
    HeadColumnLeft(n, 0);
    while col > 0
      invariant 0 <= pair <= (n - 1) / 2
      invariant col == HeadColumn(n, pair) && (col > 0 <==> pair < (n - 1) / 2)
      invariant inc == Direction(pair) && row == StartRow(n, pair)
      invariant Reached(modules, n, g, data, mask, Place(pair, 0, 0))
      invariant AtBit(bitIndex, byteIndex, FreeBefore(n, g, Place(pair, 0, 0)))
    {
      HeadColumnLeft(n, pair + 1);
      col, inc, row, bitIndex, byteIndex :=
        WalkColumns(modules, col, inc, row, data, mask, bitIndex, byteIndex, n, g, pair);
      pair := pair + 1;
    }
  }

  /**
   mapData: every module that was free gets the bit whose number is its rank in the walk, flipped
   by the mask; every module that was set, and the timing column, keeps its value.
   */
  method MapData(modules: array2<Option<bool>>, data: seq<bv8>, mask: (int, int) -> bool, ghost g: Grid)
    requires IsSide(modules.Length0) && modules.Length1 == modules.Length0
    requires forall r, c | 0 <= r < modules.Length0 && 0 <= c < modules.Length0 :: modules[r, c] == g(r, c)
    modifies modules
    ensures forall r, c | 0 <= r < modules.Length0 && 0 <= c < modules.Length0 ::
              modules[r, c] == if c != TimingColumn && g(r, c).None?
                               then Some(Coded(modules.Length0, g, data, mask, r, c)) else g(r, c)
    ensures (forall r | 0 <= r < modules.Length0 :: g(r, TimingColumn).Some?) ==>
              forall r, c | 0 <= r < modules.Length0 && 0 <= c < modules.Length0 :: modules[r, c].Some?
  {
    assert Reached(modules, modules.Length0, g, data, mask, Place(0, 0, 0));
    WalkAll(modules, modules.Length0, data, mask, g);
    WalkDone(modules, modules.Length0, g, data, mask);
  }

  lemma WalkDone(modules: array2<Option<bool>>, n: nat, g: Grid, data: seq<bv8>, mask: (int, int) -> bool)
    requires IsSide(n) && modules.Length0 == n && modules.Length1 == n
    requires Reached(modules, n, g, data, mask, Place((n - 1) / 2, 0, 0))
    ensures forall r, c | 0 <= r < n && 0 <= c < n ::
              modules[r, c]
              == if c != TimingColumn && g(r, c).None? then Some(Coded(n, g, data, mask, r, c)) else g(r, c)
  {
    forall r, c | 0 <= r < n && 0 <= c < n
      ensures modules[r, c]
           == if c != TimingColumn && g(r, c).None? then Some(Coded(n, g, data, mask, r, c)) else g(r, c)
    {
      assert modules[r, c] == Placed(n, g, data, mask, Place((n - 1) / 2, 0, 0), r, c);
    }
  }

  /** Ranks follow the walk, so every data bit goes to one free module and no two modules share one. */
  lemma {:induction false} RanksIncrease(n: nat, g: Grid, u: Place, w: Place)
    requires IsSide(n) && InWalk(n, u) && InWalk(n, w) && Earlier(u, w)
    ensures FreeBefore(n, g, u) + (if Free(n, g, u) then 1 else 0) <= FreeBefore(n, g, w)
    decreases w.pair, w.step, w.side
  {
    var v := Previous(n, w).value;
    if u != v { RanksIncrease(n, g, u, v); }
  }

  // ---------------------------------------------------------------- reading the symbol back

  /** The bits a reader finds before w: every module that was free, in walk order, without the mask. */
  function ReadBits(n: nat, g: Grid, finished: Grid, mask: (int, int) -> bool, w: Place): seq<bool>
    requires n > 0
    decreases w.pair, w.step, w.side
  {
    match Previous(n, w)
    case None => []
    case Some(u) =>
      ReadBits(n, g, finished, mask, u)
      + (if Free(n, g, u) then [(finished(Row(n, u), Column(n, u)) == Some(true)) != mask(Row(n, u), Column(n, u))]
         else [])
  }

  /** A byte from its bits, the first of them the most significant. */
  function Packed(bits: seq<bool>): bv8 {
    if bits == [] then 0 else WithBit(Packed(bits[..|bits| - 1]), bits[|bits| - 1])
  }

  function WithBit(b: bv8, bit: bool): bv8 {
    (b << 1) | (if bit then 1 else 0)
  }

  /** What mapData leaves where the symbol was free. */
  ghost predicate Finished(n: nat, g: Grid, finished: Grid, data: seq<bv8>, mask: (int, int) -> bool)
    requires IsSide(n)
  {
    forall r, c | 0 <= r < n && 0 <= c < n && c != TimingColumn && g(r, c).None? ::
      finished(r, c) == Some(Coded(n, g, data, mask, r, c))
  }

  predicate Reachable(n: nat, w: Place)
    requires n > 0
  {
    InWalk(n, w) || w == WalkEnd(n)
  }

  lemma PreviousInWalk(n: nat, w: Place)
    requires IsSide(n) && Reachable(n, w) && Previous(n, w).Some?
    ensures InWalk(n, Previous(n, w).value)
  {
  }

  lemma {:induction false} BitsAre(n: nat, g: Grid, finished: Grid, data: seq<bv8>, mask: (int, int) -> bool, w: Place)
    requires IsSide(n) && Finished(n, g, finished, data, mask) && Reachable(n, w)
    ensures var bits := ReadBits(n, g, finished, mask, w);
            |bits| == FreeBefore(n, g, w) && forall k | 0 <= k < |bits| :: bits[k] == Bit(data, k)
    decreases w.pair, w.step, w.side
  {
    if Previous(n, w).Some? {
      var u := Previous(n, w).value;
      PreviousInWalk(n, w);
      BitsAre(n, g, finished, data, mask, u);
      if Free(n, g, u) { BitAt(n, g, finished, data, mask, u); }
    }
  }

  lemma BitAt(n: nat, g: Grid, finished: Grid, data: seq<bv8>, mask: (int, int) -> bool, u: Place)
    requires IsSide(n) && Finished(n, g, finished, data, mask) && InWalk(n, u) && Free(n, g, u)
    ensures ((finished(Row(n, u), Column(n, u)) == Some(true)) != mask(Row(n, u), Column(n, u)))
            == Bit(data, FreeBefore(n, g, u))
  {
    WalkIsBijective(n, u);
  }

  lemma PackedNext(bits: seq<bool>, k: nat)
    requires k < |bits|
    ensures Packed(bits[..k + 1]) == WithBit(Packed(bits[..k]), bits[k])
  {
    assert bits[..k + 1][..k] == bits[..k];
  }

  lemma BitByBit(b: bv8)
    ensures var hi := WithBit(WithBit(WithBit(WithBit(0, BitOf(b, 7)), BitOf(b, 6)), BitOf(b, 5)), BitOf(b, 4));
            WithBit(WithBit(WithBit(WithBit(hi, BitOf(b, 3)), BitOf(b, 2)), BitOf(b, 1)), BitOf(b, 0)) == b
  {
  }

  function BitOf(b: bv8, i: nat): bool
    requires i < 8
  {
    ((b >> i) & 1) == 1
  }

  lemma PackedByte(b: bv8, bits: seq<bool>)
    requires |bits| == 8 && forall i | 0 <= i < 8 :: bits[i] == (((b >> (7 - i)) & 1) == 1)
    ensures Packed(bits) == b
  {
    assert bits[..8] == bits;
    PackedNext(bits, 0);
    PackedNext(bits, 1);
    PackedNext(bits, 2);
    PackedNext(bits, 3);
    PackedNext(bits, 4);
    PackedNext(bits, 5);
    PackedNext(bits, 6);
    PackedNext(bits, 7);
    BitByBit(b);
  }

  /** The walk's end: every module outside the timing column comes before it. */
  function WalkEnd(n: nat): Place
    requires n > 0
  {
    Place((n - 1) / 2, 0, 0)
  }

  /**
   Reading the finished symbol back: walking it, skipping what the patterns set and undoing the mask
   gives the code bytes, the most significant bit of each first, as far as there is room, and then zeros.
   */
  lemma SymbolReadsBack(n: nat, g: Grid, finished: Grid, data: seq<bv8>, mask: (int, int) -> bool)
    requires IsSide(n) && Finished(n, g, finished, data, mask)
    ensures var bits := ReadBits(n, g, finished, mask, WalkEnd(n));
            && (forall j: nat | j < |data| && 8 * (j + 1) <= |bits| :: Packed(bits[8 * j .. 8 * (j + 1)]) == data[j])
            && (forall k | 8 * |data| <= k < |bits| :: !bits[k])
  {
    var bits := ReadBits(n, g, finished, mask, WalkEnd(n));
    BitsAre(n, g, finished, data, mask, WalkEnd(n));
    forall j: nat | j < |data| && 8 * (j + 1) <= |bits| ensures Packed(bits[8 * j .. 8 * (j + 1)]) == data[j] {
      ByteReadsBack(data, bits, j);
    }
  }

  lemma ByteReadsBack(data: seq<bv8>, bits: seq<bool>, j: nat)
    requires j < |data| && 8 * (j + 1) <= |bits| && forall k | 0 <= k < |bits| :: bits[k] == Bit(data, k)
    ensures Packed(bits[8 * j .. 8 * (j + 1)]) == data[j]
  {
    var byte := bits[8 * j .. 8 * (j + 1)];
    forall i | 0 <= i < 8 ensures byte[i] == (((data[j] >> (7 - i)) & 1) == 1) {
      assert (8 * j + i) / 8 == j && (8 * j + i) % 8 == i;
    }
    PackedByte(data[j], byte);
  }
}
