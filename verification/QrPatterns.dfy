/**
 The function patterns of a QR symbol (section 6.3 of ISO/IEC 18004:2015) and the making of the whole
 symbol: whatever is not a pattern is filled by the data, and no module is left unset.
 */
module QrPatterns {
  import opened Bytes
  import opened QrMatrix

  type Modules = array2<Option<bool>>

  predicate IsGrid(modules: Modules) {
    IsSide(modules.Length0) && modules.Length1 == modules.Length0
  }

  function Side(version: nat): nat {
    4 * version + 17
  }

  /** What the modules of a symbol show. */
  ghost predicate Shows(modules: Modules, g: Grid)
    reads modules
  {
    IsGrid(modules)
    && forall r, c | 0 <= r < modules.Length0 && 0 <= c < modules.Length0 :: modules[r, c] == g(r, c)
  }

  const Blank: Grid := (r: int, c: int) => None

  /** h is g with one module set. */
  ghost predicate Sets(n: int, g: Grid, h: Grid, row: int, col: int, dark: bool) {
    forall r, c | 0 <= r < n && 0 <= c < n :: h(r, c) == if r == row && c == col then Some(dark) else g(r, c)
  }

  method Put(modules: Modules, row: int, col: int, dark: bool, ghost g: Grid, ghost h: Grid)
    requires Shows(modules, g) && Sets(modules.Length0, g, h, row, col, dark)
    requires 0 <= row < modules.Length0 && 0 <= col < modules.Length0
    modifies modules
    ensures Shows(modules, h)
  {
    modules[row, col] := Some(dark);
  }

  // ---------------------------------------------------------------- finders

  method NewSymbol(n: nat) returns (modules: Modules)
    requires IsSide(n)
    ensures fresh(modules) && modules.Length0 == n && Shows(modules, Blank)
  {
    modules := new Option<bool>[n, n]((r, c) => None);
  }

  /** A finder pattern with its separator, relative to its upper left corner. */
  function Finder(r: int, c: int): bool {
    || (0 <= r <= 6 && (c == 0 || c == 6))
    || (0 <= c <= 6 && (r == 0 || r == 6))
    || (2 <= r <= 4 && 2 <= c <= 4)
  }

  /** The rows of a finder at row, col up to row + upTo, and of the next row the columns up to col + across. */
  function WithFinderTo(g: Grid, row: int, col: int, upTo: int, across: int): Grid {
    (r: int, c: int) =>
      if (row - 1 <= r < row + upTo && col - 1 <= c <= col + 7) || (r == row + upTo && col - 1 <= c < col + across)
      then Some(Finder(r - row, c - col)) else g(r, c)
  }

  /** The grid with a finder at row, col. */
  function WithFinder(g: Grid, row: int, col: int): Grid {
    (r: int, c: int) =>
      if row - 1 <= r <= row + 7 && col - 1 <= c <= col + 7 then Some(Finder(r - row, c - col)) else g(r, c)
  }

  /** setupPositionProbePattern: the finder at a corner, as far as it lies inside the symbol. */
  method SetupPositionProbePattern(modules: Modules, row: int, col: int, ghost g: Grid)
    requires Shows(modules, g)
    modifies modules
    ensures Shows(modules, WithFinder(g, row, col))
  {
    for r := -1 to 8
      invariant Shows(modules, WithFinderTo(g, row, col, r, -1))
    {
      if row + r <= -1 || modules.Length0 <= row + r { continue; }
      for c := -1 to 8
        invariant Shows(modules, WithFinderTo(g, row, col, r, c))
      {
        if col + c <= -1 || modules.Length0 <= col + c { continue; }
        modules[row + r, col + c] := Some(Finder(r, c));
      }
    }
  }

  // ---------------------------------------------------------------- alignment patterns

  /** An alignment pattern, relative to its centre. */
  function Alignment(r: int, c: int): bool {
    r == -2 || r == 2 || c == -2 || c == 2 || (r == 0 && c == 0)
  }

  function WithAlignmentTo(g: Grid, row: int, col: int, upTo: int, across: int): Grid {
    (r: int, c: int) =>
      if (row - 2 <= r < row + upTo && col - 2 <= c <= col + 2) || (r == row + upTo && col - 2 <= c < col + across)
      then Some(Alignment(r - row, c - col)) else g(r, c)
  }

  /** The grid with an alignment pattern around a centre, unless the centre was set already. */
  function WithAlignment(g: Grid, row: int, col: int): Grid {
    if g(row, col).Some? then g
    else
      (r: int, c: int) =>
        if row - 2 <= r <= row + 2 && col - 2 <= c <= col + 2 then Some(Alignment(r - row, c - col)) else g(r, c)
  }

  /** The grid once the pairs of positions before the j-th of row i are done. */
  function Aligned(g: Grid, pos: seq<int>, i: nat, j: nat): Grid
    requires i <= |pos| && j <= |pos| && (j > 0 ==> i < |pos|)
    decreases i, j
  {
    if j > 0 then WithAlignment(Aligned(g, pos, i, j - 1), pos[i], pos[j - 1])
    else if i > 0 then Aligned(g, pos, i - 1, |pos|)
    else g
  }

  lemma AlignmentGrows(n: int, g: Grid, row: int, col: int, r: int, c: int)
    requires -2 <= r <= 2 && -2 <= c <= 2
    ensures Sets(n, WithAlignmentTo(g, row, col, r, c), WithAlignmentTo(g, row, col, r, c + 1),
                 row + r, col + c, Alignment(r, c))
  {
  }

  /** One alignment pattern. */
  method DrawAlignment(modules: Modules, row: int, col: int, ghost g: Grid)
    requires Shows(modules, g) && g(row, col).None?
    requires 2 <= row < modules.Length0 - 2 && 2 <= col < modules.Length0 - 2
    modifies modules
    ensures Shows(modules, WithAlignment(g, row, col))
  {
    for r := -2 to 3
      invariant Shows(modules, WithAlignmentTo(g, row, col, r, -2))
    {
      for c := -2 to 3
        invariant Shows(modules, WithAlignmentTo(g, row, col, r, c))
      {
        AlignmentGrows(modules.Length0, g, row, col, r, c);
        Put(modules, row + r, col + c, Alignment(r, c),
            WithAlignmentTo(g, row, col, r, c), WithAlignmentTo(g, row, col, r, c + 1));
      }
      assert Shows(modules, WithAlignmentTo(g, row, col, r + 1, -2));
    }
  }

  const PatternPositions: seq<seq<int>> := [
    [], [6, 18], [6, 22], [6, 26],
    [6, 30], [6, 34], [6, 22, 38], [6, 24, 42],
    [6, 26, 46], [6, 28, 50], [6, 30, 54], [6, 32, 58],
    [6, 34, 62], [6, 26, 46, 66], [6, 26, 48, 70], [6, 26, 50, 74],
    [6, 30, 54, 78], [6, 30, 56, 82], [6, 30, 58, 86], [6, 34, 62, 90],
    [6, 28, 50, 72, 94], [6, 26, 50, 74, 98], [6, 30, 54, 78, 102], [6, 28, 54, 80, 106],
    [6, 32, 58, 84, 110], [6, 30, 58, 86, 114], [6, 34, 62, 90, 118], [6, 26, 50, 74, 98, 122],
    [6, 30, 54, 78, 102, 126], [6, 26, 52, 78, 104, 130], [6, 30, 56, 82, 108, 134], [6, 34, 60, 86, 112, 138],
    [6, 30, 58, 86, 114, 142], [6, 34, 62, 90, 118, 146], [6, 30, 54, 78, 102, 126, 150],
    [6, 24, 50, 76, 102, 128, 154],
    [6, 28, 54, 80, 106, 132, 158], [6, 32, 58, 84, 110, 136, 162], [6, 26, 54, 82, 110, 138, 166],
    [6, 30, 58, 86, 114, 142, 170]]

  /** Positions from the first to the last finder, even, at least 12 apart. */
  predicate Spaced(n: int, pos: seq<int>) {
    && (|pos| > 0 ==> |pos| > 1 && pos[0] == 6 && pos[|pos| - 1] == n - 7)
    && (forall k | 0 <= k < |pos| :: pos[k] % 2 == 0)
    && (forall k | 0 <= k < |pos| - 1 :: pos[k] + 12 <= pos[k + 1])
  }

  lemma TableSpacedSmall(version: nat)
    requires 1 <= version <= 20
    ensures Spaced(Side(version), PatternPositions[version - 1])
  {
  }

  lemma TableSpacedMiddle(version: nat)
    requires 21 <= version <= 31
    ensures Spaced(Side(version), PatternPositions[version - 1])
  {
  }

  lemma TableSpacedLarge(version: nat)
    requires 32 <= version <= 40
    ensures Spaced(Side(version), PatternPositions[version - 1])
  {
  }

  lemma TableSpaced(version: nat)
    requires 1 <= version <= 40
    ensures Spaced(Side(version), PatternPositions[version - 1])
  {
    if version <= 20 { TableSpacedSmall(version); }
    else if version <= 31 { TableSpacedMiddle(version); }
    else { TableSpacedLarge(version); }
  }

  /** The gap between positions: what spreads them evenly, as an even number not below it; one version has less. */
  function PositionGap(version: nat): nat
    requires version >= 2
  {
    var gaps := version / 7 + 1;
    if version == 32 then 26 else (Side(version) - 13 + 2 * gaps - 1) / (2 * gaps) * 2
  }

  /** Equal gaps from the last position down to the second, and the first one fixed. */
  predicate SpreadBy(version: nat, pos: seq<int>, gaps: nat, gap: nat) {
    && |pos| == gaps + 1 && pos[0] == 6
    && forall k | 0 < k < |pos| :: pos[k] == Side(version) - 7 - (gaps - k) * gap
  }

  lemma TableSpread2(version: nat)
    requires 2 <= version <= 6
    ensures SpreadBy(version, PatternPositions[version - 1], 1, PositionGap(version))
  {
  }

  lemma TableSpread7(version: nat)
    requires 7 <= version <= 13
    ensures SpreadBy(version, PatternPositions[version - 1], 2, PositionGap(version))
  {
  }

  lemma TableSpread14(version: nat)
    requires 14 <= version <= 17
    ensures SpreadBy(version, PatternPositions[version - 1], 3, PositionGap(version))
  {
  }

  lemma TableSpread18(version: nat)
    requires 18 <= version <= 20
    ensures SpreadBy(version, PatternPositions[version - 1], 3, PositionGap(version))
  {
  }

  lemma TableSpread21(version: nat)
    requires 21 <= version <= 23
    ensures SpreadBy(version, PatternPositions[version - 1], 4, PositionGap(version))
  {
  }

  lemma TableSpread24(version: nat)
    requires 24 <= version <= 25
    ensures SpreadBy(version, PatternPositions[version - 1], 4, PositionGap(version))
  {
  }

  lemma TableSpread26(version: nat)
    requires 26 <= version <= 27
    ensures SpreadBy(version, PatternPositions[version - 1], 4, PositionGap(version))
  {
  }

  lemma TableSpread28(version: nat)
    requires 28 <= version <= 30
    ensures SpreadBy(version, PatternPositions[version - 1], 5, PositionGap(version))
  {
  }

  lemma TableSpread31(version: nat)
    requires 31 <= version <= 32
    ensures SpreadBy(version, PatternPositions[version - 1], 5, PositionGap(version))
  {
  }

  lemma TableSpread33(version: nat)
    requires 33 <= version <= 34
    ensures SpreadBy(version, PatternPositions[version - 1], 5, PositionGap(version))
  {
  }

  lemma TableSpread35(version: nat)
    requires 35 <= version <= 37
    ensures SpreadBy(version, PatternPositions[version - 1], 6, PositionGap(version))
  {
  }

  lemma TableSpread38(version: nat)
    requires 38 <= version <= 40
    ensures SpreadBy(version, PatternPositions[version - 1], 6, PositionGap(version))
  {
  }

  /** The whole table of positions (Annex E of ISO/IEC 18004:2015) is what this rule gives. */
  lemma PositionsSpread(version: nat)
    requires 1 <= version <= 40
    ensures var pos := PatternPosition(version);
            if version == 1 then pos == [] else SpreadBy(version, pos, version / 7 + 1, PositionGap(version))
  {
    if 2 <= version <= 6 { TableSpread2(version); }
    if 7 <= version <= 13 { TableSpread7(version); }
    if 14 <= version <= 17 { TableSpread14(version); }
    if 18 <= version <= 20 { TableSpread18(version); }
    if 21 <= version <= 23 { TableSpread21(version); }
    if 24 <= version <= 25 { TableSpread24(version); }
    if 26 <= version <= 27 { TableSpread26(version); }
    if 28 <= version <= 30 { TableSpread28(version); }
    if 31 <= version <= 32 { TableSpread31(version); }
    if 33 <= version <= 34 { TableSpread33(version); }
    if 35 <= version <= 37 { TableSpread35(version); }
    if 38 <= version <= 40 { TableSpread38(version); }
  }

  /** getPatternPosition. */
  function PatternPosition(version: nat): (pos: seq<int>)
    requires 1 <= version <= 40
    ensures Spaced(Side(version), pos)
  {
    TableSpaced(version);
    PatternPositions[version - 1]
  }

  lemma {:induction false} SpacedPairs(n: int, pos: seq<int>, k: nat, l: nat)
    requires Spaced(n, pos) && k < l < |pos|
    ensures pos[k] + 12 <= pos[l]
  {
    if k + 1 < l { SpacedPairs(n, pos, k, l - 1); }
  }

  /** The first and the last position, or well between the finders. */
  lemma SpacedInside(n: int, pos: seq<int>, k: nat)
    requires Spaced(n, pos) && k < |pos|
    ensures if k == 0 then pos[k] == 6 else if k == |pos| - 1 then pos[k] == n - 7 else 18 <= pos[k] <= n - 19
    ensures k > 0 ==> 18 <= pos[k] <= n - 7
    ensures n >= 25
  {
    SpacedPairs(n, pos, 0, |pos| - 1);
    if k > 0 { SpacedPairs(n, pos, 0, k); }
    if k < |pos| - 1 { SpacedPairs(n, pos, k, |pos| - 1); }
  }

  /** setupPositionAdjustPattern: an alignment pattern at every pair of positions whose centre is still free. */
  method SetupPositionAdjustPattern(modules: Modules, pos: seq<int>, ghost g: Grid)
    requires Shows(modules, g) && Spaced(modules.Length0, pos)
    modifies modules
    ensures Shows(modules, Aligned(g, pos, |pos|, 0))
  {
    for i := 0 to |pos|
      invariant Shows(modules, Aligned(g, pos, i, 0))
    {
      for j := 0 to |pos|
        invariant Shows(modules, Aligned(g, pos, i, j))
      {
        SpacedInside(modules.Length0, pos, i);
        SpacedInside(modules.Length0, pos, j);
        ghost var before := Aligned(g, pos, i, j);
        if modules[pos[i], pos[j]] != None { continue; }
        DrawAlignment(modules, pos[i], pos[j], before);
      }
    }
  }

  // ---------------------------------------------------------------- timing

  /** The grid with alternating modules between the finders, where nothing was set. */
  function WithTiming(g: Grid, n: int): Grid {
    (r: int, c: int) =>
      if g(r, c).Some? then g(r, c)
      else if c == 6 && 8 <= r < n - 8 then Some(r % 2 == 0)
      else if r == 6 && 8 <= c < n - 8 then Some(c % 2 == 0)
      else None
  }

  function WithTimingTo(g: Grid, down: int, across: int): Grid {
    (r: int, c: int) =>
      if g(r, c).Some? then g(r, c)
      else if c == 6 && 8 <= r < down then Some(r % 2 == 0)
      else if r == 6 && 8 <= c < across then Some(c % 2 == 0)
      else None
  }

  /** setupTimingPattern. */
  method SetupTimingPattern(modules: Modules, ghost g: Grid)
    requires Shows(modules, g)
    modifies modules
    ensures Shows(modules, WithTiming(g, modules.Length0))
  {
    for r := 8 to modules.Length0 - 8
      invariant Shows(modules, WithTimingTo(g, r, 8))
    {
      if modules[r, 6] != None { continue; }
      modules[r, 6] := Some(r % 2 == 0);
    }
    for c := 8 to modules.Length0 - 8
      invariant Shows(modules, WithTimingTo(g, modules.Length0 - 8, c))
    {
      if modules[6, c] != None { continue; }
      modules[6, c] := Some(c % 2 == 0);
    }
  }

  // ---------------------------------------------------------------- format and version

  /** Which bit of the format goes to a module of column 8. */
  function VerticalBit(n: int, r: int, c: int): Option<nat> {
    if c != 8 then None
    else if 0 <= r < 6 then Some(r)
    else if r == 7 || r == 8 then Some(r - 1)
    else if n - 7 <= r < n then Some(r - (n - 15))
    else None
  }

  /** Which bit of the format goes to a module of row 8. */
  function HorizontalBit(n: int, r: int, c: int): Option<nat> {
    if r != 8 then None
    else if n - 8 <= c < n then Some(n - 1 - c)
    else if c == 7 then Some(8)
    else if 0 <= c < 6 then Some(14 - c)
    else None
  }

  /** The grid with the first down bits in column 8 and the first across bits in row 8. */
  function WithFormatTo(g: Grid, n: int, bits: nat -> bool, test: bool, down: int, across: int): Grid {
    (r: int, c: int) =>
      if HorizontalBit(n, r, c).Some? && HorizontalBit(n, r, c).value < across
      then Some(!test && bits(HorizontalBit(n, r, c).value))
      else if VerticalBit(n, r, c).Some? && VerticalBit(n, r, c).value < down
      then Some(!test && bits(VerticalBit(n, r, c).value))
      else g(r, c)
  }

  /** The grid with the format bits, twice beside the finders, and the fixed module. */
  function WithFormat(g: Grid, n: int, bits: nat -> bool, test: bool): Grid {
    (r: int, c: int) =>
      if r == n - 8 && c == 8 then Some(!test)
      else if HorizontalBit(n, r, c).Some? then Some(!test && bits(HorizontalBit(n, r, c).value))
      else if VerticalBit(n, r, c).Some? then Some(!test && bits(VerticalBit(n, r, c).value))
      else g(r, c)
  }

  function FormatRow(n: int, i: int): int {
    if i < 6 then i else if i < 8 then i + 1 else n - 15 + i
  }

  function FormatColumn(n: int, i: int): int {
    if i < 8 then n - i - 1 else if i < 9 then 15 - i - 1 + 1 else 15 - i - 1
  }

  lemma FormatPlace(n: int, i: nat, r: int, c: int)
    requires i < 15 && n >= 21
    ensures VerticalBit(n, r, c) == Some(i) <==> r == FormatRow(n, i) && c == 8
    ensures HorizontalBit(n, r, c) == Some(i) <==> r == 8 && c == FormatColumn(n, i)
    ensures HorizontalBit(n, r, c).Some? ==> HorizontalBit(n, r, c).value < 15 && VerticalBit(n, r, c).None?
    ensures VerticalBit(n, r, c).Some? ==> VerticalBit(n, r, c).value < 15
  {
  }

  lemma FormatGrowsDown(g: Grid, n: int, bits: nat -> bool, test: bool, i: nat)
    requires i < 15 && n >= 21
    ensures Sets(n, WithFormatTo(g, n, bits, test, i, 0), WithFormatTo(g, n, bits, test, i + 1, 0),
                 FormatRow(n, i), 8, !test && bits(i))
  {
    forall r, c { FormatPlace(n, i, r, c); }
  }

  lemma FormatGrowsAcross(g: Grid, n: int, bits: nat -> bool, test: bool, i: nat)
    requires i < 15 && n >= 21
    ensures Sets(n, WithFormatTo(g, n, bits, test, 15, i), WithFormatTo(g, n, bits, test, 15, i + 1),
                 8, FormatColumn(n, i), !test && bits(i))
  {
    forall r, c { FormatPlace(n, i, r, c); }
  }

  lemma FormatEnds(g: Grid, n: int, bits: nat -> bool, test: bool)
    requires n >= 21
    ensures Sets(n, WithFormatTo(g, n, bits, test, 15, 15), WithFormat(g, n, bits, test), n - 8, 8, !test)
  {
    forall r, c { FormatPlace(n, 0, r, c); }
  }

  /** setupTypeInfo. */
  method SetupTypeInfo(modules: Modules, bits: nat -> bool, test: bool, ghost g: Grid)
    requires Shows(modules, g)
    modifies modules
    ensures Shows(modules, WithFormat(g, modules.Length0, bits, test))
  {
    var n := modules.Length0;
    for i := 0 to 15
      invariant Shows(modules, WithFormatTo(g, n, bits, test, i, 0))
    {
      FormatGrowsDown(g, n, bits, test, i);
      Put(modules, FormatRow(n, i), 8, !test && bits(i),
          WithFormatTo(g, n, bits, test, i, 0), WithFormatTo(g, n, bits, test, i + 1, 0));
    }
    for i := 0 to 15
      invariant Shows(modules, WithFormatTo(g, n, bits, test, 15, i))
    {
      FormatGrowsAcross(g, n, bits, test, i);
      Put(modules, 8, FormatColumn(n, i), !test && bits(i),
          WithFormatTo(g, n, bits, test, 15, i), WithFormatTo(g, n, bits, test, 15, i + 1));
    }
    FormatEnds(g, n, bits, test);
    Put(modules, n - 8, 8, !test, WithFormatTo(g, n, bits, test, 15, 15), WithFormat(g, n, bits, test));
  }

  /** Which bit of the version goes to a module of the upper right block, or of its mirror image. */
  function UpperBit(n: int, r: int, c: int): Option<nat> {
    if 0 <= r < 6 && n - 11 <= c < n - 8 then Some(r * 3 + (c - (n - 11))) else None
  }

  /** The grid with the first upper bits in the upper right block and the first lower ones in the lower left. */
  function WithVersionTo(g: Grid, n: int, bits: nat -> bool, test: bool, upper: int, lower: int): Grid {
    (r: int, c: int) =>
      if UpperBit(n, r, c).Some? && UpperBit(n, r, c).value < upper
      then Some(!test && bits(UpperBit(n, r, c).value))
      else if UpperBit(n, c, r).Some? && UpperBit(n, c, r).value < lower
      then Some(!test && bits(UpperBit(n, c, r).value))
      else g(r, c)
  }

  function WithVersion(g: Grid, n: int, bits: nat -> bool, test: bool): Grid {
    WithVersionTo(g, n, bits, test, 18, 18)
  }

  lemma UpperPlace(n: int, i: nat, r: int, c: int)
    requires i < 18 && n >= 45
    ensures UpperBit(n, r, c) == Some(i) <==> r == i / 3 && c == i % 3 + n - 8 - 3
    ensures UpperBit(n, r, c).Some? ==> UpperBit(n, r, c).value < 18 && UpperBit(n, c, r).None?
  {
  }

  lemma VersionGrows(g: Grid, n: int, bits: nat -> bool, test: bool, i: nat)
    requires i < 18 && n >= 45
    ensures Sets(n, WithVersionTo(g, n, bits, test, i, 0), WithVersionTo(g, n, bits, test, i + 1, 0),
                 i / 3, i % 3 + n - 8 - 3, !test && bits(i))
    ensures Sets(n, WithVersionTo(g, n, bits, test, 18, i), WithVersionTo(g, n, bits, test, 18, i + 1),
                 i % 3 + n - 8 - 3, i / 3, !test && bits(i))
  {
    forall r, c { UpperPlace(n, i, r, c); }
  }

  /** setupTypeNumber. */
  method SetupTypeNumber(modules: Modules, bits: nat -> bool, test: bool, ghost g: Grid)
    requires Shows(modules, g) && modules.Length0 >= 45
    modifies modules
    ensures Shows(modules, WithVersion(g, modules.Length0, bits, test))
  {
    var n := modules.Length0;
    for i := 0 to 18
      invariant Shows(modules, WithVersionTo(g, n, bits, test, i, 0))
    {
      VersionGrows(g, n, bits, test, i);
      Put(modules, i / 3, i % 3 + n - 8 - 3, !test && bits(i),
          WithVersionTo(g, n, bits, test, i, 0), WithVersionTo(g, n, bits, test, i + 1, 0));
    }
    for i := 0 to 18
      invariant Shows(modules, WithVersionTo(g, n, bits, test, 18, i))
    {
      VersionGrows(g, n, bits, test, i);
      Put(modules, i % 3 + n - 8 - 3, i / 3, !test && bits(i),
          WithVersionTo(g, n, bits, test, 18, i), WithVersionTo(g, n, bits, test, 18, i + 1));
    }
  }

  // ---------------------------------------------------------------- the whole symbol

  function WithFinders(g: Grid, n: int): Grid {
    WithFinder(WithFinder(WithFinder(g, 0, 0), n - 7, 0), 0, n - 7)
  }

  /** The finders and alignment patterns of a version. */
  function Squares(version: nat): Grid
    requires 1 <= version <= 40
  {
    var pos := PatternPosition(version);
    Aligned(WithFinders(Blank, Side(version)), pos, |pos|, 0)
  }

  /** The patterns of a version before the format bits. */
  function Fixed(version: nat): Grid
    requires 1 <= version <= 40
  {
    WithTiming(Squares(version), Side(version))
  }

  /** All function patterns of a symbol. */
  function Patterns(version: nat, info: nat -> bool, number: nat -> bool, test: bool): Grid
    requires 1 <= version <= 40
  {
    var n := Side(version);
    var formatted := WithFormat(Fixed(version), n, info, test);
    if version >= 7 then WithVersion(formatted, n, number, test) else formatted
  }

  method SetupFinders(modules: Modules)
    requires Shows(modules, Blank)
    modifies modules
    ensures Shows(modules, WithFinders(Blank, modules.Length0))
  {
    SetupPositionProbePattern(modules, 0, 0, Blank);
    SetupPositionProbePattern(modules, modules.Length0 - 7, 0, WithFinder(Blank, 0, 0));
    SetupPositionProbePattern(modules, 0, modules.Length0 - 7,
                              WithFinder(WithFinder(Blank, 0, 0), modules.Length0 - 7, 0));
  }

  /** Everything of makeImpl before the data. */
  method SetupPatterns(modules: Modules, version: nat, info: nat -> bool, number: nat -> bool, test: bool)
    requires 1 <= version <= 40 && modules.Length0 == Side(version) && Shows(modules, Blank)
    modifies modules
    ensures Shows(modules, Patterns(version, info, number, test))
  {
    SetupFinders(modules);
    SetupPositionAdjustPattern(modules, PatternPosition(version), WithFinders(Blank, Side(version)));
    SetupTimingPattern(modules, Squares(version));
    SetupTypeInfo(modules, info, test, Fixed(version));
    if version >= 7 {
      SetupTypeNumber(modules, number, test, WithFormat(Fixed(version), Side(version), info, test));
    }
  }

  // ---------------------------------------------------------------- no pattern spoils another

  lemma {:induction false} AlignedKeeps(g: Grid, pos: seq<int>, i: nat, j: nat, r: int, c: int)
    requires i <= |pos| && j <= |pos| && (j > 0 ==> i < |pos|)
    ensures g(r, c).Some? ==> Aligned(g, pos, i, j)(r, c).Some?
    decreases i, j
  {
    if j > 0 {
      AlignedKeeps(g, pos, i, j - 1, r, c);
    } else if i > 0 {
      AlignedKeeps(g, pos, i - 1, |pos|, r, c);
    }
  }

  /** A pair of positions that a finder already holds. */
  predicate Corner(m: nat, k: nat, l: nat) {
    (k == 0 && l == 0) || (k == 0 && l == m - 1) || (k == m - 1 && l == 0)
  }

  predicate Covers(row: int, col: int, r: int, c: int) {
    row - 2 <= r <= row + 2 && col - 2 <= c <= col + 2
  }

  predicate Done(k: nat, l: nat, i: nat, j: nat) {
    k < i || (k == i && l < j)
  }

  /** Two alignment patterns never meet. */
  lemma OneCovers(n: int, pos: seq<int>, k: nat, l: nat, k': nat, l': nat, r: int, c: int)
    requires Spaced(n, pos) && k < |pos| && l < |pos| && k' < |pos| && l' < |pos|
    requires Covers(pos[k], pos[l], r, c) && Covers(pos[k'], pos[l'], r, c)
    ensures k == k' && l == l'
  {
    if k < k' { SpacedPairs(n, pos, k, k'); }
    if k' < k { SpacedPairs(n, pos, k', k); }
    if l < l' { SpacedPairs(n, pos, l, l'); }
    if l' < l { SpacedPairs(n, pos, l', l); }
  }

  /** Exactly the centres at the corners are taken by finders. */
  lemma CornersAreFinders(n: int, pos: seq<int>, k: nat, l: nat)
    requires Spaced(n, pos) && k < |pos| && l < |pos|
    ensures WithFinders(Blank, n)(pos[k], pos[l]).Some? <==> Corner(|pos|, k, l)
  {
    SpacedInside(n, pos, k);
    SpacedInside(n, pos, l);
  }

  /** The alignment pattern around a pair of positions stands as soon as it was drawn, unless a finder is there. */
  lemma {:induction false} AlignedAt(n: int, pos: seq<int>, i: nat, j: nat, k: nat, l: nat, r: int, c: int)
    requires Spaced(n, pos) && i <= |pos| && j <= |pos| && (j > 0 ==> i < |pos|)
    requires k < |pos| && l < |pos| && Covers(pos[k], pos[l], r, c)
    ensures Aligned(WithFinders(Blank, n), pos, i, j)(r, c)
         == if Done(k, l, i, j) && !Corner(|pos|, k, l) then Some(Alignment(r - pos[k], c - pos[l]))
            else WithFinders(Blank, n)(r, c)
    decreases i, j
  {
    if j > 0 {
      AlignedAt(n, pos, i, j - 1, k, l, r, c);
      AlignedAt(n, pos, i, j - 1, i, j - 1, pos[i], pos[j - 1]);
      CornersAreFinders(n, pos, i, j - 1);
      if Covers(pos[i], pos[j - 1], r, c) { OneCovers(n, pos, i, j - 1, k, l, r, c); }
    } else if i > 0 {
      AlignedAt(n, pos, i - 1, |pos|, k, l, r, c);
    }
  }

  /** A module that no alignment pattern covers. */
  ghost predicate Apart(pos: seq<int>, r: int, c: int) {
    forall k, l | 0 <= k < |pos| && 0 <= l < |pos| :: Covers(pos[k], pos[l], r, c) ==> Corner(|pos|, k, l)
  }

  lemma {:induction false} AlignedElsewhere(n: int, pos: seq<int>, i: nat, j: nat, r: int, c: int)
    requires Spaced(n, pos) && i <= |pos| && j <= |pos| && (j > 0 ==> i < |pos|) && Apart(pos, r, c)
    ensures Aligned(WithFinders(Blank, n), pos, i, j)(r, c) == WithFinders(Blank, n)(r, c)
    decreases i, j
  {
    if j > 0 {
      AlignedElsewhere(n, pos, i, j - 1, r, c);
      AlignedKeeps(WithFinders(Blank, n), pos, i, j - 1, pos[i], pos[j - 1]);
      CornersAreFinders(n, pos, i, j - 1);
    } else if i > 0 {
      AlignedElsewhere(n, pos, i - 1, |pos|, r, c);
    }
  }

  predicate InFinder(row: int, col: int, r: int, c: int) {
    row - 1 <= r <= row + 7 && col - 1 <= c <= col + 7
  }

  predicate InFinders(n: int, r: int, c: int) {
    InFinder(0, 0, r, c) || InFinder(n - 7, 0, r, c) || InFinder(0, n - 7, r, c)
  }

  predicate InTiming(n: int, r: int, c: int) {
    (c == 6 && 8 <= r < n - 8) || (r == 6 && 8 <= c < n - 8)
  }

  /** Among the format bits, or in a version block. */
  predicate InNumbers(version: nat, r: int, c: int) {
    var n := Side(version);
    || VerticalBit(n, r, c).Some? || HorizontalBit(n, r, c).Some? || (r == n - 8 && c == 8)
    || (version >= 7 && (UpperBit(n, r, c).Some? || UpperBit(n, c, r).Some?))
  }

  /** What stands where no format or version bit does. */
  lemma NumbersElsewhere(version: nat, info: nat -> bool, number: nat -> bool, test: bool, r: int, c: int)
    requires 1 <= version <= 40 && !InNumbers(version, r, c)
    ensures Patterns(version, info, number, test)(r, c) == WithTiming(Squares(version), Side(version))(r, c)
  {
  }

  lemma SquaresElsewhere(version: nat, r: int, c: int)
    requires 1 <= version <= 40 && Apart(PatternPosition(version), r, c)
    ensures Squares(version)(r, c) == WithFinders(Blank, Side(version))(r, c)
  {
    var pos := PatternPosition(version);
    AlignedElsewhere(Side(version), pos, |pos|, 0, r, c);
  }

  /** The format and version bits are beside the finders, and off the timing lines. */
  lemma LinesApart(version: nat, r: int, c: int)
    requires version >= 1 && 0 <= r < Side(version) && 0 <= c < Side(version)
    requires InFinders(Side(version), r, c) || InTiming(Side(version), r, c)
    ensures !InNumbers(version, r, c)
  {
  }

  lemma FindersApart(n: int, pos: seq<int>, r: int, c: int)
    requires Spaced(n, pos) && n >= 21 && InFinders(n, r, c) && 0 <= r < n && 0 <= c < n
    ensures Apart(pos, r, c)
  {
    forall k, l | 0 <= k < |pos| && 0 <= l < |pos| && Covers(pos[k], pos[l], r, c) ensures Corner(|pos|, k, l) {
      SpacedInside(n, pos, k);
      SpacedInside(n, pos, l);
    }
  }

  lemma AlignmentsApart(version: nat, pos: seq<int>, k: nat, l: nat, r: int, c: int)
    requires version >= 1 && Spaced(Side(version), pos) && k < |pos| && l < |pos|
    requires !Corner(|pos|, k, l) && Covers(pos[k], pos[l], r, c)
    ensures !InNumbers(version, r, c) && !InFinders(Side(version), r, c)
    ensures InTiming(Side(version), r, c) ==> Alignment(r - pos[k], c - pos[l]) == ((r + c) % 2 == 0)
  {
    SpacedInside(Side(version), pos, k);
    SpacedInside(Side(version), pos, l);
  }

  lemma FindersPlaced(version: nat, info: nat -> bool, number: nat -> bool, test: bool,
                     row: int, col: int, r: int, c: int)
    requires 1 <= version <= 40 && InFinder(row, col, r, c) && 0 <= r < Side(version) && 0 <= c < Side(version)
    requires || (row == 0 && col == 0) || (row == Side(version) - 7 && col == 0)
             || (row == 0 && col == Side(version) - 7)
    ensures Patterns(version, info, number, test)(r, c) == Some(Finder(r - row, c - col))
  {
    LinesApart(version, r, c);
    NumbersElsewhere(version, info, number, test, r, c);
    FindersApart(Side(version), PatternPosition(version), r, c);
    SquaresElsewhere(version, r, c);
  }

  lemma AlignmentsPlaced(version: nat, info: nat -> bool, number: nat -> bool, test: bool,
                        k: nat, l: nat, r: int, c: int)
    requires 1 <= version <= 40 && k < |PatternPosition(version)| && l < |PatternPosition(version)|
    requires !Corner(|PatternPosition(version)|, k, l)
    requires Covers(PatternPosition(version)[k], PatternPosition(version)[l], r, c)
    ensures Patterns(version, info, number, test)(r, c)
         == Some(Alignment(r - PatternPosition(version)[k], c - PatternPosition(version)[l]))
  {
    var pos := PatternPosition(version);
    AlignmentsApart(version, pos, k, l, r, c);
    NumbersElsewhere(version, info, number, test, r, c);
    AlignedAt(Side(version), pos, |pos|, 0, k, l, r, c);
  }

  /** The larger of the row and the column distance between two modules: which ring around one the other is on. */
  function Ring(row: int, col: int, r: int, c: int): nat {
    var dr: nat, dc: nat := if r < row then row - r else r - row, if c < col then col - c else c - col;
    if dr < dc then dc else dr
  }

  lemma FinderRings(row: int, col: int, r: int, c: int)
    ensures Ring(row, col, r, c) <= 4 <==> InFinder(row - 3, col - 3, r, c)
    ensures Ring(row, col, r, c) <= 4 ==>
              (Finder(r - (row - 3), c - (col - 3)) <==> Ring(row, col, r, c) != 2 && Ring(row, col, r, c) != 4)
  {
  }

  /**
   The three finders stand in the finished symbol: around each centre a dark square of three modules, a
   light ring, a dark ring and the light separator (section 6.3.3 of ISO/IEC 18004:2015).
   */
  lemma FindersStand(version: nat, info: nat -> bool, number: nat -> bool, test: bool,
                     row: int, col: int, r: int, c: int)
    requires 1 <= version <= 40 && Ring(row, col, r, c) <= 4 && 0 <= r < Side(version) && 0 <= c < Side(version)
    requires || (row == 3 && col == 3) || (row == Side(version) - 4 && col == 3)
             || (row == 3 && col == Side(version) - 4)
    ensures Patterns(version, info, number, test)(r, c)
         == Some(Ring(row, col, r, c) != 2 && Ring(row, col, r, c) != 4)
  {
    FinderRings(row, col, r, c);
    FindersPlaced(version, info, number, test, row - 3, col - 3, r, c);
  }

  lemma AlignmentRings(row: int, col: int, r: int, c: int)
    ensures Ring(row, col, r, c) <= 2 <==> Covers(row, col, r, c)
    ensures Ring(row, col, r, c) <= 2 ==> (Alignment(r - row, c - col) <==> Ring(row, col, r, c) % 2 == 0)
  {
  }

  /** So does every alignment pattern but those at the finders: a dark centre, a light ring, a dark ring. */
  lemma AlignmentsStand(version: nat, info: nat -> bool, number: nat -> bool, test: bool,
                        k: nat, l: nat, r: int, c: int)
    requires 1 <= version <= 40 && k < |PatternPosition(version)| && l < |PatternPosition(version)|
    requires !Corner(|PatternPosition(version)|, k, l)
    requires Ring(PatternPosition(version)[k], PatternPosition(version)[l], r, c) <= 2
    ensures Patterns(version, info, number, test)(r, c)
         == Some(Ring(PatternPosition(version)[k], PatternPosition(version)[l], r, c) % 2 == 0)
  {
    AlignmentRings(PatternPosition(version)[k], PatternPosition(version)[l], r, c);
    AlignmentsPlaced(version, info, number, test, k, l, r, c);
  }

  lemma FormatDrawn(g: Grid, n: int, bits: nat -> bool, test: bool, i: nat)
    requires i < 15 && n >= 21
    ensures WithFormat(g, n, bits, test)(FormatRow(n, i), 8) == Some(!test && bits(i))
    ensures WithFormat(g, n, bits, test)(8, FormatColumn(n, i)) == Some(!test && bits(i))
    ensures WithFormat(g, n, bits, test)(n - 8, 8) == Some(!test)
  {
    FormatPlace(n, i, FormatRow(n, i), 8);
    FormatPlace(n, i, 8, FormatColumn(n, i));
  }

  lemma VersionElsewhere(version: nat, info: nat -> bool, number: nat -> bool, test: bool, r: int, c: int)
    requires 1 <= version <= 40 && (r == 8 || c == 8)
    ensures Patterns(version, info, number, test)(r, c)
         == WithFormat(Fixed(version), Side(version), info, test)(r, c)
  {
  }

  /** Both copies of the format bits can be read from the finished symbol. */
  lemma FormatStands(version: nat, info: nat -> bool, number: nat -> bool, test: bool, i: nat)
    requires 1 <= version <= 40 && i < 15
    ensures Patterns(version, info, number, test)(FormatRow(Side(version), i), 8) == Some(!test && info(i))
    ensures Patterns(version, info, number, test)(8, FormatColumn(Side(version), i)) == Some(!test && info(i))
    ensures Patterns(version, info, number, test)(Side(version) - 8, 8) == Some(!test)
  {
    var n := Side(version);
    FormatDrawn(Fixed(version), n, info, test, i);
    VersionElsewhere(version, info, number, test, FormatRow(n, i), 8);
    VersionElsewhere(version, info, number, test, 8, FormatColumn(n, i));
    VersionElsewhere(version, info, number, test, n - 8, 8);
  }

  /** So can both copies of the version bits. */
  lemma VersionStands(version: nat, info: nat -> bool, number: nat -> bool, test: bool, i: nat)
    requires 7 <= version <= 40 && i < 18
    ensures Patterns(version, info, number, test)(i / 3, i % 3 + Side(version) - 11) == Some(!test && number(i))
    ensures Patterns(version, info, number, test)(i % 3 + Side(version) - 11, i / 3) == Some(!test && number(i))
  {
    var n := Side(version);
    UpperPlace(n, i, i / 3, i % 3 + n - 11);
  }

  lemma TimingDrawn(g: Grid, n: int, r: int, c: int)
    requires InTiming(n, r, c) && g(r, c).None?
    ensures WithTiming(g, n)(r, c) == Some((r + c) % 2 == 0)
  {
  }

  lemma NoFinder(n: int, r: int, c: int)
    requires !InFinders(n, r, c)
    ensures WithFinders(Blank, n)(r, c).None?
  {
  }

  lemma TimingAlone(version: nat, info: nat -> bool, number: nat -> bool, test: bool, r: int, c: int)
    requires 1 <= version <= 40 && InTiming(Side(version), r, c) && Apart(PatternPosition(version), r, c)
    ensures Patterns(version, info, number, test)(r, c) == Some((r + c) % 2 == 0)
  {
    LinesApart(version, r, c);
    NumbersElsewhere(version, info, number, test, r, c);
    SquaresElsewhere(version, r, c);
    NoFinder(Side(version), r, c);
    TimingDrawn(Squares(version), Side(version), r, c);
  }

  /** The timing lines alternate from finder to finder, through the alignment patterns they meet. */
  lemma TimingStands(version: nat, info: nat -> bool, number: nat -> bool, test: bool, r: int, c: int)
    requires 1 <= version <= 40 && InTiming(Side(version), r, c)
    ensures Patterns(version, info, number, test)(r, c) == Some((r + c) % 2 == 0)
  {
    var pos := PatternPosition(version);
    if k, l :| 0 <= k < |pos| && 0 <= l < |pos| && Covers(pos[k], pos[l], r, c) && !Corner(|pos|, k, l) {
      AlignmentsPlaced(version, info, number, test, k, l, r, c);
      AlignmentsApart(version, pos, k, l, r, c);
    } else {
      TimingAlone(version, info, number, test, r, c);
    }
  }

  /** Every module that is in none of the patterns is left to the data. */
  lemma RestIsFree(version: nat, info: nat -> bool, number: nat -> bool, test: bool, r: int, c: int)
    requires 1 <= version <= 40 && Apart(PatternPosition(version), r, c) && !InNumbers(version, r, c)
    requires !InFinders(Side(version), r, c) && !InTiming(Side(version), r, c)
    ensures Patterns(version, info, number, test)(r, c).None?
  {
    NumbersElsewhere(version, info, number, test, r, c);
    SquaresElsewhere(version, r, c);
  }

  /** The timing column is set from end to end, as the walk needs. */
  lemma TimingColumnSet(version: nat, info: nat -> bool, number: nat -> bool, test: bool, r: int)
    requires 1 <= version <= 40 && 0 <= r < Side(version)
    ensures Patterns(version, info, number, test)(r, TimingColumn).Some?
  {
    if r < 8 {
      FindersPlaced(version, info, number, test, 0, 0, r, TimingColumn);
    } else if r >= Side(version) - 8 {
      FindersPlaced(version, info, number, test, Side(version) - 7, 0, r, TimingColumn);
    } else {
      TimingStands(version, info, number, test, r, TimingColumn);
    }
  }

  /** What the data make of a symbol that shows g. */
  function Filled(n: nat, g: Grid, data: seq<bv8>, mask: (int, int) -> bool, r: int, c: int): Option<bool>
    requires IsSide(n) && 0 <= r < n && 0 <= c < n
  {
    if c != TimingColumn && g(r, c).None? then Some(Coded(n, g, data, mask, r, c)) else g(r, c)
  }

  /** mapData on a symbol whose timing column is set. */
  method FillSymbol(modules: Modules, data: seq<bv8>, mask: (int, int) -> bool, ghost g: Grid)
    requires Shows(modules, g) && forall r | 0 <= r < modules.Length0 :: g(r, TimingColumn).Some?
    modifies modules
    ensures forall r, c | 0 <= r < modules.Length0 && 0 <= c < modules.Length0 ::
              modules[r, c].Some? && modules[r, c] == Filled(modules.Length0, g, data, mask, r, c)
  {
    MapData(modules, data, mask, g);
  }

  /**
   makeImpl on a fresh symbol: the patterns stay, every module that no pattern set carries its bit of
   the data, flipped by the mask, and no module is left unset.
   */
  method MakeImpl(version: nat, info: nat -> bool, number: nat -> bool, test: bool,
                  data: seq<bv8>, mask: (int, int) -> bool)
    returns (modules: Modules)
    requires 1 <= version <= 40
    ensures fresh(modules) && modules.Length0 == modules.Length1 == Side(version)
    ensures forall r, c | 0 <= r < modules.Length0 && 0 <= c < modules.Length0 ::
              modules[r, c].Some?
              && modules[r, c] == Filled(Side(version), Patterns(version, info, number, test), data, mask, r, c)
  {
    modules := NewSymbol(Side(version));
    SetupPatterns(modules, version, info, number, test);
    forall r | 0 <= r < Side(version) { TimingColumnSet(version, info, number, test, r); }
    FillSymbol(modules, data, mask, Patterns(version, info, number, test));
  }
}
