/** Day 4: the word search. The grid is taken as the list of its rows
    (`input_str.splitlines()`); splitting the text into rows is not modelled.
    As in the source, the columns and diagonals cover only the first
    `Width(g)` columns, the length of the shortest row, which is what
    `zip(*horizontals)` yields; for a rectangular grid that is every column. */
module WordSearch {
  import opened Strings

  type Grid = seq<string>

  /** A `(row, col)` pair of the source. */
  datatype Cell = Cell(row: int, col: int)

  /** `len(list(zip(*horizontals)))`: the length of the shortest row. */
  function Width(g: Grid): (w: nat)
    ensures forall r :: 0 <= r < |g| ==> w <= |g[r]|
    ensures |g| == 0 ==> w == 0
    ensures |g| > 0 ==> w in set r | 0 <= r < |g| :: |g[r]|
  {
    if |g| == 0 then 0 else ShortestUpTo(g, |g| - 1)
  }

  /** The length of the shortest of the rows `0` to `i`. */
  function ShortestUpTo(g: Grid, i: nat): (w: nat)
    requires i < |g|
    ensures forall r :: 0 <= r <= i ==> w <= |g[r]|
    ensures w in set r | 0 <= r <= i :: |g[r]|
  {
    if i == 0 then |g[0]|
    else
      var w := ShortestUpTo(g, i - 1);
      if |g[i]| < w then |g[i]| else w
  }

  /** `["".join(x) for x in zip(*horizontals)]`: the columns, top to bottom. */
  function Verticals(g: Grid): (v: seq<string>)
    ensures |v| == Width(g)
    ensures forall c :: 0 <= c < |v| ==> |v[c]| == |g|
    ensures forall c, r :: 0 <= c < |v| && 0 <= r < |g| ==> v[c][r] == g[r][c]
  {
    seq(Width(g), c requires 0 <= c < Width(g) => seq(|g|, r requires 0 <= r < |g| => g[r][c]))
  }

  predicate InRange(row: int, col: int, rows: int, cols: int) {
    0 <= row < rows && 0 <= col < cols
  }

  // ---------------------------------------------------------------------
  // get_diagonal_pairs

  /** The pair the comprehension forms for diagonal `x` and counter `y`:
      `(x-y, y)` in the first family (constant `row + col`), `(x-y, cols-y-1)`
      in the second (constant `row - col`). */
  function PairAt(x: int, y: int, cols: int, anti: bool): Cell {
    if anti then Cell(x - y, y) else Cell(x - y, cols - y - 1)
  }

  /** `[pair for y in range(y, x + 1) if in_range(*pair, rows, cols)]`. */
  function PairsFrom(x: nat, y: nat, rows: nat, cols: nat, anti: bool): seq<Cell>
    decreases x + 1 - y
  {
    if y > x then []
    else
      var p := PairAt(x, y, cols, anti);
      (if InRange(p.row, p.col, rows, cols) then [p] else []) + PairsFrom(x, y + 1, rows, cols, anti)
  }

  /** `rows + cols - 1` diagonals, none when there are no rows. */
  function DiagonalCount(rows: nat, cols: nat): nat {
    if rows + cols == 0 then 0 else rows + cols - 1
  }

  /** `pairs_1` (anti) or `pairs_2` (not anti): one list of pairs per diagonal. */
  function PairFamily(rows: nat, cols: nat, anti: bool): (lines: seq<seq<Cell>>)
    ensures |lines| == DiagonalCount(rows, cols)
  {
    seq(DiagonalCount(rows, cols), x requires 0 <= x < DiagonalCount(rows, cols) => PairsFrom(x, 0, rows, cols, anti))
  }

  /** get_diagonal_pairs: `pairs_1 + pairs_2`. */
  function DiagonalPairs(rows: nat, cols: nat): (lines: seq<seq<Cell>>)
    ensures |lines| == 2 * DiagonalCount(rows, cols)
  {
    PairFamily(rows, cols, true) + PairFamily(rows, cols, false)
  }

  // Closed form of one diagonal: the counters `y` from Lo to Hi survive the
  // range filter.

  function Lo(x: int, rows: int): int {
    if x - rows + 1 > 0 then x - rows + 1 else 0
  }

  function Hi(x: int, cols: int): int {
    if x < cols - 1 then x else cols - 1
  }

  lemma PairInRange(x: nat, y: nat, rows: nat, cols: nat, anti: bool)
    requires y <= x
    ensures var p := PairAt(x, y, cols, anti);
      InRange(p.row, p.col, rows, cols) <==> Lo(x, rows) <= y <= Hi(x, cols)
  {
  }

  lemma {:induction false} PairsFromClosed(x: nat, y: nat, rows: nat, cols: nat, anti: bool)
    requires y <= x + 1
    decreases x + 1 - y
    ensures var start := if y < Lo(x, rows) then Lo(x, rows) else y;
      var n := if Hi(x, cols) >= start then Hi(x, cols) - start + 1 else 0;
      && |PairsFrom(x, y, rows, cols, anti)| == n
      && forall k :: 0 <= k < n ==> PairsFrom(x, y, rows, cols, anti)[k] == PairAt(x, start + k, cols, anti)
  {
    if y <= x {
      PairInRange(x, y, rows, cols, anti);
      PairsFromClosed(x, y + 1, rows, cols, anti);
    }
  }

  /** Diagonal `x` of a family lists the pairs for `y` from Lo to Hi in order. */
  lemma DiagonalClosed(rows: nat, cols: nat, anti: bool, x: nat)
    requires x < DiagonalCount(rows, cols)
    ensures var line := PairFamily(rows, cols, anti)[x];
      && |line| == (if Hi(x, cols) >= Lo(x, rows) then Hi(x, cols) - Lo(x, rows) + 1 else 0)
      && forall k :: 0 <= k < |line| ==> line[k] == PairAt(x, Lo(x, rows) + k, cols, anti)
  {
    PairsFromClosed(x, 0, rows, cols, anti);
  }

  /** The diagonal of a family that a cell lies on. */
  function DiagonalOf(r: int, c: int, cols: int, anti: bool): int {
    if anti then r + c else r + cols - 1 - c
  }

  /** Every cell of the grid lies on exactly one diagonal of each family. */
  lemma CellOnOneDiagonal(rows: nat, cols: nat, anti: bool, r: int, c: int)
    requires InRange(r, c, rows, cols)
    ensures 0 <= DiagonalOf(r, c, cols, anti) < DiagonalCount(rows, cols)
    ensures forall x :: 0 <= x < DiagonalCount(rows, cols) ==>
      (Cell(r, c) in PairFamily(rows, cols, anti)[x] <==> x == DiagonalOf(r, c, cols, anti))
  {
    forall x | 0 <= x < DiagonalCount(rows, cols)
      ensures Cell(r, c) in PairFamily(rows, cols, anti)[x] <==> x == DiagonalOf(r, c, cols, anti)
    {
      DiagonalClosed(rows, cols, anti, x);
      var line := PairFamily(rows, cols, anti)[x];
      if x == DiagonalOf(r, c, cols, anti) {
        var y := if anti then c else cols - 1 - c;
        assert line[y - Lo(x, rows)] == Cell(r, c);
      }
    }
  }

  /** Every pair of a diagonal is inside the grid, and no diagonal repeats a
      cell. */
  lemma DiagonalCellsDistinct(rows: nat, cols: nat, anti: bool, x: nat)
    requires x < DiagonalCount(rows, cols)
    ensures var line := PairFamily(rows, cols, anti)[x];
      && (forall k :: 0 <= k < |line| ==> InRange(line[k].row, line[k].col, rows, cols))
      && (forall i, j :: 0 <= i < j < |line| ==> line[i] != line[j])
  {
    DiagonalClosed(rows, cols, anti, x);
  }

  // ---------------------------------------------------------------------
  // resolve_pairs

  /** Every pair of `line` names a character of `g`. */
  predicate CellsIn(line: seq<Cell>, g: Grid) {
    forall k :: 0 <= k < |line| ==> 0 <= line[k].row < |g| && 0 <= line[k].col < |g[line[k].row]|
  }

  /** `"".join([horizontals[pair[0]][pair[1]] for pair in pair_set])`. */
  function Resolve(line: seq<Cell>, g: Grid): (s: string)
    requires CellsIn(line, g)
    ensures |s| == |line|
    ensures forall k :: 0 <= k < |s| ==> s[k] == g[line[k].row][line[k].col]
  {
    seq(|line|, k requires 0 <= k < |line| => g[line[k].row][line[k].col])
  }

  /** resolve_pairs. */
  function ResolvePairs(lines: seq<seq<Cell>>, g: Grid): (texts: seq<string>)
    requires forall x :: 0 <= x < |lines| ==> CellsIn(lines[x], g)
    ensures |texts| == |lines|
    ensures forall x :: 0 <= x < |lines| ==> texts[x] == Resolve(lines[x], g)
  {
    seq(|lines|, x requires 0 <= x < |lines| => Resolve(lines[x], g))
  }

  /** The diagonals of a family name characters of the grid. */
  lemma FamilyCellsIn(g: Grid, anti: bool)
    ensures forall x :: 0 <= x < DiagonalCount(|g|, Width(g)) ==> CellsIn(PairFamily(|g|, Width(g), anti)[x], g)
  {
    var lines := PairFamily(|g|, Width(g), anti);
    forall x | 0 <= x < |lines| ensures CellsIn(lines[x], g) {
      DiagonalCellsDistinct(|g|, Width(g), anti, x);
    }
  }

  lemma DiagonalPairsCellsIn(g: Grid)
    ensures forall x :: 0 <= x < |DiagonalPairs(|g|, Width(g))| ==> CellsIn(DiagonalPairs(|g|, Width(g))[x], g)
  {
    FamilyCellsIn(g, true);
    FamilyCellsIn(g, false);
    var n := DiagonalCount(|g|, Width(g));
    var lines := DiagonalPairs(|g|, Width(g));
    forall x | 0 <= x < |lines| ensures CellsIn(lines[x], g) {
      if x < n {
        assert lines[x] == PairFamily(|g|, Width(g), true)[x];
      } else {
        assert lines[x] == PairFamily(|g|, Width(g), false)[x - n];
      }
    }
  }

  // ---------------------------------------------------------------------
  // wordsearch

  /** The diagonal strings of both families. */
  function Diagonals(g: Grid): (d: seq<string>)
    ensures |d| == 2 * DiagonalCount(|g|, Width(g))
  {
    DiagonalPairsCellsIn(g);
    ResolvePairs(DiagonalPairs(|g|, Width(g)), g)
  }

  /** `item.count("XMAS") + item.count("SAMX")`. */
  function LineScore(s: string): nat {
    Count(s, "XMAS") + Count(s, "SAMX")
  }

  /** `sum(matches)`. */
  function TotalScore(lines: seq<string>): nat {
    if lines == [] then 0 else LineScore(lines[0]) + TotalScore(lines[1..])
  }

  /** wordsearch: every row, column and diagonal, scored. */
  function Wordsearch(g: Grid): nat {
    TotalScore(g + Verticals(g) + Diagonals(g))
  }

  lemma {:induction false} TotalScoreAppend(a: seq<string>, b: seq<string>)
    ensures TotalScore(a + b) == TotalScore(a) + TotalScore(b)
  {
    if a == [] {
      assert a + b == b;
    } else {
      assert (a + b)[0] == a[0] && (a + b)[1..] == a[1..] + b;
      TotalScoreAppend(a[1..], b);
    }
  }

  /** The result is the score of the rows, plus that of the columns, plus
      that of the diagonals; a line scores the places where `XMAS` starts
      plus those where `SAMX` starts, since neither word can overlap itself. */
  lemma WordsearchDecomposes(g: Grid)
    ensures Wordsearch(g) == TotalScore(g) + TotalScore(Verticals(g)) + TotalScore(Diagonals(g))
    ensures forall s: string :: LineScore(s) == |Occurrences(s, "XMAS")| + |Occurrences(s, "SAMX")|
  {
    TotalScoreAppend(g, Verticals(g));
    TotalScoreAppend(g + Verticals(g), Diagonals(g));
    HeadUniqueOverlapFree("XMAS");
    HeadUniqueOverlapFree("SAMX");
    forall s: string ensures LineScore(s) == |Occurrences(s, "XMAS")| + |Occurrences(s, "SAMX")| {
      CountIsOccurrences(s, "XMAS");
      CountIsOccurrences(s, "SAMX");
    }
  }

  lemma {:induction false} TotalScoreWithoutX(lines: seq<string>)
    requires forall x :: 0 <= x < |lines| ==> 'X' !in lines[x]
    ensures TotalScore(lines) == 0
  {
    if lines != [] {
      CountWithoutChar(lines[0], "XMAS", 0);
      CountWithoutChar(lines[0], "SAMX", 3);
      TotalScoreWithoutX(lines[1..]);
    }
  }

  /** A grid without an `X` scores nothing. */
  lemma WordsearchWithoutX(g: Grid)
    requires forall r, c :: 0 <= r < |g| && 0 <= c < |g[r]| ==> g[r][c] != 'X'
    ensures Wordsearch(g) == 0
  {
    var lines := g + Verticals(g) + Diagonals(g);
    var v, d := Verticals(g), Diagonals(g);
    var pairs := DiagonalPairs(|g|, Width(g));
    DiagonalPairsCellsIn(g);
    forall x | 0 <= x < |lines| ensures 'X' !in lines[x] {
      if x < |g| {
        assert lines[x] == g[x];
      } else if x < |g| + |v| {
        var c := x - |g|;
        assert lines[x] == v[c];
        forall r | 0 <= r < |g| ensures v[c][r] != 'X' {
          assert v[c][r] == g[r][c];
        }
      } else {
        var t := x - |g| - |v|;
        var s := Resolve(pairs[t], g);
        assert lines[x] == d[t] == s;
        forall k | 0 <= k < |s| ensures s[k] != 'X' {
          assert s[k] == g[pairs[t][k].row][pairs[t][k].col];
        }
      }
    }
    TotalScoreWithoutX(lines);
  }

  /** A line shorter than the word scores nothing. */
  lemma {:induction false} ShortLinesScoreNothing(lines: seq<string>)
    requires forall x :: 0 <= x < |lines| ==> |lines[x]| < 4
    ensures TotalScore(lines) == 0
  {
    if lines != [] {
      assert MatchStarts(lines[0], "XMAS", 0) == [];
      assert MatchStarts(lines[0], "SAMX", 0) == [];
      ShortLinesScoreNothing(lines[1..]);
    }
  }

  /** In a grid of one row every column and every diagonal holds at most one
      character, so only the row itself can score. */
  lemma OneRowGrid(w: string)
    ensures Wordsearch([w]) == LineScore(w)
  {
    var g := [w];
    WordsearchDecomposes(g);
    assert Width(g) == |w|;
    ShortLinesScoreNothing(Verticals(g));
    var d := Diagonals(g);
    var n := DiagonalCount(1, |w|);
    var pairs := DiagonalPairs(1, |w|);
    DiagonalPairsCellsIn(g);
    forall x | 0 <= x < |d| ensures |d[x]| < 4 {
      assert d[x] == Resolve(pairs[x], g);
      if x < n {
        DiagonalClosed(1, |w|, true, x);
        assert pairs[x] == PairFamily(1, |w|, true)[x];
      } else {
        DiagonalClosed(1, |w|, false, x - n);
        assert pairs[x] == PairFamily(1, |w|, false)[x - n];
      }
    }
    ShortLinesScoreNothing(d);
    assert g[1..] == [];
  }

  /** The grid made of the single row `XMAS` holds exactly one word. */
  lemma OneRowExample(w: string)
    requires w == "XMAS"
    ensures Wordsearch([w]) == 1
  {
    OneRowGrid(w);
    assert w[0..4] == "XMAS";
    assert MatchStarts(w, "XMAS", 4) == [];
    assert MatchStarts(w, "XMAS", 0) == [0];
    assert w[0..4] != "SAMX";
    assert MatchStarts(w, "SAMX", 1) == [];
    assert MatchStarts(w, "SAMX", 0) == [];
  }

  // ---------------------------------------------------------------------
  // wordsearch_complex

  /** `pair_set[::-1]`. */
  function Reverse<T>(line: seq<T>): (r: seq<T>)
    ensures |r| == |line|
    ensures forall k :: 0 <= k < |r| ==> r[k] == line[|line| - 1 - k]
  {
    seq(|line|, k requires 0 <= k < |line| => line[|line| - 1 - k])
  }

  /** `pairs_b`: the second family with every diagonal reversed, so that it
      runs from its top-left end to its bottom-right end. */
  function FallingPairs(rows: nat, cols: nat): (lines: seq<seq<Cell>>)
    ensures |lines| == DiagonalCount(rows, cols)
  {
    var f := PairFamily(rows, cols, false);
    seq(|f|, x requires 0 <= x < |f| => Reverse(f[x]))
  }

  /** Diagonal `x` of `pairs_b` lists the pairs for `y` from Hi down to Lo. */
  lemma FallingClosed(rows: nat, cols: nat, x: nat)
    requires x < DiagonalCount(rows, cols)
    ensures var line := FallingPairs(rows, cols)[x];
      && |line| == (if Hi(x, cols) >= Lo(x, rows) then Hi(x, cols) - Lo(x, rows) + 1 else 0)
      && forall j :: 0 <= j < |line| ==> Lo(x, rows) <= Hi(x, cols) - j && line[j] == PairAt(x, Hi(x, cols) - j, cols, false)
  {
    DiagonalClosed(rows, cols, false, x);
  }

  /** Both families of `wordsearch_complex` name characters of the grid. */
  lemma CrossCellsIn(g: Grid)
    ensures forall x :: 0 <= x < DiagonalCount(|g|, Width(g)) ==> CellsIn(PairFamily(|g|, Width(g), true)[x], g)
    ensures forall x :: 0 <= x < DiagonalCount(|g|, Width(g)) ==> CellsIn(FallingPairs(|g|, Width(g))[x], g)
  {
    FamilyCellsIn(g, true);
    FamilyCellsIn(g, false);
  }

  /** The starts of `MAS` followed by those of `SAM`, as the two `finditer`
      scans of one diagonal report them. */
  function CentreStarts(text: string): seq<nat> {
    MatchStarts(text, "MAS", 0) + MatchStarts(text, "SAM", 0)
  }

  /** `{c for l in coords for c in l}`: the pair one past each match start,
      over every diagonal of the family. */
  function Centres(lines: seq<seq<Cell>>, g: Grid): set<Cell>
    requires forall x :: 0 <= x < |lines| ==> CellsIn(lines[x], g)
  {
    var texts := ResolvePairs(lines, g);
    set key, m | 0 <= key < |lines| && m in CentreStarts(texts[key]) :: lines[key][m + 1]
  }

  /** wordsearch_complex: the number of cells that are the middle of a `MAS`
      or `SAM` on a diagonal of each family. */
  function WordsearchComplex(g: Grid): nat {
    |FallingCentreSet(g) * RisingCentreSet(g)|
  }

  /** `a_coords_set`. */
  function RisingCentreSet(g: Grid): set<Cell> {
    CrossCellsIn(g);
    Centres(PairFamily(|g|, Width(g), true), g)
  }

  /** `b_coords_set`. */
  function FallingCentreSet(g: Grid): set<Cell> {
    CrossCellsIn(g);
    Centres(FallingPairs(|g|, Width(g)), g)
  }

  // Reference definition: an X of two MAS words crossing at an A.

  predicate MS(a: char, b: char) {
    (a == 'M' && b == 'S') || (a == 'S' && b == 'M')
  }

  /** The cell `(r, c)` is an `A` away from the border whose two diagonal
      neighbour pairs each hold one `M` and one `S`. */
  predicate IsXMas(g: Grid, r: int, c: int) {
    && 1 <= r < |g| - 1 && 1 <= c < Width(g) - 1
    && g[r][c] == 'A'
    && MS(g[r - 1][c - 1], g[r + 1][c + 1])
    && MS(g[r + 1][c - 1], g[r - 1][c + 1])
  }

  function XCentres(g: Grid): set<Cell> {
    set r, c | 0 <= r < |g| && 0 <= c < Width(g) && IsXMas(g, r, c) :: Cell(r, c)
  }

  /** The centre half of an X along the rising diagonal (bottom-left to top-right). */
  predicate RisingMas(g: Grid, cell: Cell) {
    var r, c := cell.row, cell.col;
    && 1 <= r < |g| - 1 && 1 <= c < Width(g) - 1
    && g[r][c] == 'A' && MS(g[r + 1][c - 1], g[r - 1][c + 1])
  }

  /** The centre half of an X along the falling diagonal (top-left to bottom-right). */
  predicate FallingMas(g: Grid, cell: Cell) {
    var r, c := cell.row, cell.col;
    && 1 <= r < |g| - 1 && 1 <= c < Width(g) - 1
    && g[r][c] == 'A' && MS(g[r - 1][c - 1], g[r + 1][c + 1])
  }

  /** `m` starts a `MAS` or a `SAM` exactly when the three characters from `m`
      are an `M` and an `S` around an `A`. */
  lemma CentreStartsChars(t: string, m: int)
    ensures m in CentreStarts(t) <==> 0 <= m && m + 3 <= |t| && t[m + 1] == 'A' && MS(t[m], t[m + 2])
  {
    HeadUniqueOverlapFree("MAS");
    HeadUniqueOverlapFree("SAM");
    MatchStartsComplete(t, "MAS", 0, m);
    MatchStartsComplete(t, "SAM", 0, m);
    if 0 <= m && m + 3 <= |t| {
      assert t[m..m + 3] == [t[m], t[m + 1], t[m + 2]];
    }
  }

  /** The three pairs of `line` from `m` step up and to the right (`up`) or
      down and to the right, and the middle one is away from the border. */
  predicate Window(line: seq<Cell>, m: int, rows: int, cols: int, up: bool) {
    var d := if up then -1 else 1;
    && 0 <= m && m + 2 < |line|
    && line[m] == Cell(line[m + 1].row - d, line[m + 1].col - 1)
    && line[m + 2] == Cell(line[m + 1].row + d, line[m + 1].col + 1)
    && 1 <= line[m + 1].row < rows - 1 && 1 <= line[m + 1].col < cols - 1
  }

  /** Any three consecutive pairs of a first-family diagonal form a rising
      window. */
  lemma RisingStep(rows: nat, cols: nat, key: nat, line: seq<Cell>, m: nat)
    requires key < DiagonalCount(rows, cols) && line == PairFamily(rows, cols, true)[key]
    requires m + 2 < |line|
    ensures Window(line, m, rows, cols, true)
  {
    DiagonalClosed(rows, cols, true, key);
  }

  /** An inner cell lies in the middle of a window of three on its
      first-family diagonal. */
  lemma RisingWindow(rows: nat, cols: nat, r: int, c: int)
    requires 1 <= r < rows - 1 && 1 <= c < cols - 1
    ensures var key := r + c;
      var m := c - 1 - Lo(key, rows);
      && 0 <= key < DiagonalCount(rows, cols)
      && 0 <= m && m + 2 < |PairFamily(rows, cols, true)[key]|
      && PairFamily(rows, cols, true)[key][m + 1] == Cell(r, c)
  {
    DiagonalClosed(rows, cols, true, r + c);
  }

  /** Any three consecutive pairs of a reversed second-family diagonal form
      a falling window. */
  lemma FallingStep(rows: nat, cols: nat, key: nat, line: seq<Cell>, m: nat)
    requires key < DiagonalCount(rows, cols) && line == FallingPairs(rows, cols)[key]
    requires m + 2 < |line|
    ensures Window(line, m, rows, cols, false)
  {
    FallingClosed(rows, cols, key);
  }

  /** An inner cell lies in the middle of a window of three on its reversed
      second-family diagonal. */
  lemma FallingWindow(rows: nat, cols: nat, r: int, c: int)
    requires 1 <= r < rows - 1 && 1 <= c < cols - 1
    ensures var key := r + cols - 1 - c;
      var m := Hi(key, cols) - (cols - 1 - c) - 1;
      && 0 <= key < DiagonalCount(rows, cols)
      && 0 <= m && m + 2 < |FallingPairs(rows, cols)[key]|
      && FallingPairs(rows, cols)[key][m + 1] == Cell(r, c)
  {
    FallingClosed(rows, cols, r + cols - 1 - c);
  }

  /** The character a resolved diagonal holds for one of its pairs. */
  lemma TextAt(g: Grid, line: seq<Cell>, k: int, r: int, c: int)
    requires CellsIn(line, g) && 0 <= k < |line| && line[k] == Cell(r, c)
    ensures 0 <= r < |g| && 0 <= c < |g[r]| && Resolve(line, g)[k] == g[r][c]
  {
  }

  /** The middle of a window is the `A` of a `MAS` along it exactly when the
      window's text is a `MAS` or `SAM`. */
  lemma WindowChars(g: Grid, cols: nat, line: seq<Cell>, m: int, up: bool)
    requires cols == Width(g) && CellsIn(line, g) && Window(line, m, |g|, cols, up)
    ensures m in CentreStarts(Resolve(line, g)) <==>
      if up then RisingMas(g, line[m + 1]) else FallingMas(g, line[m + 1])
  {
    var t := Resolve(line, g);
    var r, c := line[m + 1].row, line[m + 1].col;
    CentreStartsChars(t, m);
    TextAt(g, line, m + 1, r, c);
    if up {
      TextAt(g, line, m, r + 1, c - 1);
      TextAt(g, line, m + 2, r - 1, c + 1);
      RisingMasChars(g, r, c, t[m], t[m + 1], t[m + 2]);
    } else {
      TextAt(g, line, m, r - 1, c - 1);
      TextAt(g, line, m + 2, r + 1, c + 1);
      FallingMasChars(g, r, c, t[m], t[m + 1], t[m + 2]);
    }
  }

  lemma RisingMasChars(g: Grid, r: int, c: int, before: char, mid: char, after: char)
    requires 1 <= r < |g| - 1 && 1 <= c < Width(g) - 1
    requires before == g[r + 1][c - 1] && mid == g[r][c] && after == g[r - 1][c + 1]
    ensures RisingMas(g, Cell(r, c)) <==> mid == 'A' && MS(before, after)
  {
  }

  lemma FallingMasChars(g: Grid, r: int, c: int, before: char, mid: char, after: char)
    requires 1 <= r < |g| - 1 && 1 <= c < Width(g) - 1
    requires before == g[r - 1][c - 1] && mid == g[r][c] && after == g[r + 1][c + 1]
    ensures FallingMas(g, Cell(r, c)) <==> mid == 'A' && MS(before, after)
  {
  }

  lemma RisingCentresSound(g: Grid, cell: Cell)
    requires cell in RisingCentreSet(g)
    ensures RisingMas(g, cell)
  {
    var rows, cols := |g|, Width(g);
    var lines := PairFamily(rows, cols, true);
    CrossCellsIn(g);
    var texts := ResolvePairs(lines, g);
    assert RisingCentreSet(g) == Centres(lines, g);
    var key, m :| 0 <= key < |lines| && m in CentreStarts(texts[key]) && lines[key][m + 1] == cell;
    CentreStartsChars(texts[key], m);
    RisingStep(rows, cols, key, lines[key], m);
    WindowChars(g, cols, lines[key], m, true);
  }

  lemma RisingCentresComplete(g: Grid, cell: Cell)
    requires RisingMas(g, cell)
    ensures cell in RisingCentreSet(g)
  {
    var rows, cols := |g|, Width(g);
    var lines := PairFamily(rows, cols, true);
    CrossCellsIn(g);
    var texts := ResolvePairs(lines, g);
    RisingWindow(rows, cols, cell.row, cell.col);
    var key := cell.row + cell.col;
    var m := cell.col - 1 - Lo(key, rows);
    RisingStep(rows, cols, key, lines[key], m);
    WindowChars(g, cols, lines[key], m, true);
    assert m in CentreStarts(texts[key]);
    assert cell in Centres(lines, g);
  }

  /** A cell is collected from the first family exactly when it is the `A` of
      a `MAS` or `SAM` along its rising diagonal. */
  lemma RisingCentres(g: Grid, cell: Cell)
    ensures cell in RisingCentreSet(g) <==> RisingMas(g, cell)
  {
    if cell in RisingCentreSet(g) {
      RisingCentresSound(g, cell);
    }
    if RisingMas(g, cell) {
      RisingCentresComplete(g, cell);
    }
  }

  lemma FallingCentresSound(g: Grid, cell: Cell)
    requires cell in FallingCentreSet(g)
    ensures FallingMas(g, cell)
  {
    var rows, cols := |g|, Width(g);
    var lines := FallingPairs(rows, cols);
    CrossCellsIn(g);
    var texts := ResolvePairs(lines, g);
    assert FallingCentreSet(g) == Centres(lines, g);
    var key, m :| 0 <= key < |lines| && m in CentreStarts(texts[key]) && lines[key][m + 1] == cell;
    CentreStartsChars(texts[key], m);
    FallingStep(rows, cols, key, lines[key], m);
    WindowChars(g, cols, lines[key], m, false);
  }

  lemma FallingCentresComplete(g: Grid, cell: Cell)
    requires FallingMas(g, cell)
    ensures cell in FallingCentreSet(g)
  {
    var rows, cols := |g|, Width(g);
    var lines := FallingPairs(rows, cols);
    CrossCellsIn(g);
    var texts := ResolvePairs(lines, g);
    FallingWindow(rows, cols, cell.row, cell.col);
    var key := cell.row + cols - 1 - cell.col;
    var m := Hi(key, cols) - (cols - 1 - cell.col) - 1;
    FallingStep(rows, cols, key, lines[key], m);
    WindowChars(g, cols, lines[key], m, false);
    assert m in CentreStarts(texts[key]);
    assert cell in Centres(lines, g);
  }

  /** A cell is collected from the reversed second family exactly when it is
      the `A` of a `MAS` or `SAM` along its falling diagonal. */
  lemma FallingCentres(g: Grid, cell: Cell)
    ensures cell in FallingCentreSet(g) <==> FallingMas(g, cell)
  {
    if cell in FallingCentreSet(g) {
      FallingCentresSound(g, cell);
    }
    if FallingMas(g, cell) {
      FallingCentresComplete(g, cell);
    }
  }

  /** Membership of the reference set. */
  lemma XCentresMembership(g: Grid, cell: Cell)
    ensures cell in XCentres(g) <==> RisingMas(g, cell) && FallingMas(g, cell)
  {
    if RisingMas(g, cell) && FallingMas(g, cell) {
      assert IsXMas(g, cell.row, cell.col);
    }
  }

  /** wordsearch_complex counts exactly the X-shaped pairs of `MAS` words:
      the `A` cells whose two diagonals both read `MAS` one way or the other. */
  lemma WordsearchComplexCountsXs(g: Grid)
    ensures WordsearchComplex(g) == |XCentres(g)|
  {
    var a := RisingCentreSet(g);
    var b := FallingCentreSet(g);
    forall cell ensures cell in b * a <==> cell in XCentres(g) {
      RisingCentres(g, cell);
      FallingCentres(g, cell);
      XCentresMembership(g, cell);
    }
    assert b * a == XCentres(g);
  }

  /** The X count never exceeds the number of `A` cells, and a grid with fewer
      than three rows or three columns has none. */
  lemma WordsearchComplexBounds(g: Grid)
    ensures WordsearchComplex(g) <= |ACells(g)|
    ensures |g| < 3 || Width(g) < 3 ==> WordsearchComplex(g) == 0
  {
    WordsearchComplexCountsXs(g);
    assert XCentres(g) <= ACells(g);
    CardinalitySubset(XCentres(g), ACells(g));
    if |g| < 3 || Width(g) < 3 {
      assert XCentres(g) == {};
    }
  }

  /** The cells of the first `Width(g)` columns that hold an `A`. */
  function ACells(g: Grid): set<Cell> {
    set r, c | 0 <= r < |g| && 0 <= c < Width(g) && g[r][c] == 'A' :: Cell(r, c)
  }

  lemma CardinalitySubset<T>(a: set<T>, b: set<T>)
    requires a <= b
    ensures |a| <= |b|
  {
    assert b == a + (b - a);
  }

  // ---------------------------------------------------------------------
  // Transposition: for a rectangular grid the columns are the rows of the
  // transposed grid, and the word-search total does not change when the
  // grid is transposed.

  /** Every row is as long as the shortest one. */
  predicate Rectangular(g: Grid) {
    forall r :: 0 <= r < |g| ==> |g[r]| == Width(g)
  }

  /** `t` is the transpose of the non-empty rectangular grid `g`. */
  predicate Transposed(g: Grid, t: Grid) {
    && |g| > 0 && Width(g) > 0 && Rectangular(g)
    && |t| == Width(g) && Width(t) == |g|
    && (forall c :: 0 <= c < |t| ==> |t[c]| == |g|)
    && (forall r, c :: 0 <= r < |g| && 0 <= c < |t| ==> t[c][r] == g[r][c])
  }

  /** The columns of a non-empty rectangular grid form its transpose, a
      rectangular grid whose columns are the original rows. */
  lemma VerticalsTransposed(g: Grid)
    requires |g| > 0 && Width(g) > 0 && Rectangular(g)
    ensures Transposed(g, Verticals(g))
    ensures Rectangular(Verticals(g)) && Verticals(Verticals(g)) == g
  {
    var t := Verticals(g);
    assert |t[0]| == |g|;
    var lengths := set c | 0 <= c < |t| :: |t[c]|;
    assert lengths == {|g|};
    assert Width(t) == |g|;
    var u := Verticals(t);
    forall r | 0 <= r < |g| ensures u[r] == g[r] {
      forall c | 0 <= c < |t| ensures u[r][c] == g[r][c] {
        assert u[r][c] == t[c][r];
      }
    }
  }

  /** The two readings of one line, forwards and backwards, find the same
      words: `p` occurs in the reversed text at as many places as the
      reversed pattern occurs in the text. */
  lemma OccurrencesReverse(s: string, p: string)
    requires |p| > 0
    ensures |Occurrences(Reverse(s), p)| == |Occurrences(s, Reverse(p))|
  {
    var n := |s| - |p|;
    var q := Reverse(p);
    var a := Occurrences(s, q);
    var b := Occurrences(Reverse(s), p);
    forall j: int ensures OccursAt(Reverse(s), p, j) <==> OccursAt(s, q, n - j) {
      if 0 <= j && j + |p| <= |s| {
        if OccursAt(Reverse(s), p, j) {
          forall u | 0 <= u < |p| ensures s[n - j..n - j + |p|][u] == q[u] {
            assert Reverse(s)[j..j + |p|][|p| - 1 - u] == p[|p| - 1 - u];
          }
        }
        if OccursAt(s, q, n - j) {
          forall u | 0 <= u < |p| ensures Reverse(s)[j..j + |p|][u] == p[u] {
            assert s[n - j..n - j + |p|][|p| - 1 - u] == q[|p| - 1 - u];
          }
        }
      }
    }
    forall j | j in b ensures j in Mirror(a, n) {
      assert n - j in a;
    }
    forall j | j in Mirror(a, n) ensures j in b {
      var i :| i in a && j == n - i;
    }
    assert b == Mirror(a, n);
    MirrorCardinality(a, n);
  }

  /** The offsets `n - i` for `i` in `a`. */
  function Mirror(a: set<nat>, n: int): set<int> {
    set i | i in a :: n - i
  }

  lemma {:induction false} MirrorCardinality(a: set<nat>, n: int)
    decreases |a|
    ensures |Mirror(a, n)| == |a|
  {
    if a != {} {
      var i :| i in a;
      var rest := a - {i};
      MirrorCardinality(rest, n);
      forall j | j in Mirror(a, n) ensures j in Mirror(rest, n) + {n - i} {
        var i' :| i' in a && j == n - i';
        if i' != i {
          assert i' in rest;
        }
      }
      assert Mirror(a, n) == Mirror(rest, n) + {n - i};
      assert n - i !in Mirror(rest, n);
    }
  }

  /** A line read backwards scores the same: every `XMAS` becomes a `SAMX`
      and every `SAMX` an `XMAS`. */
  lemma LineScoreReverse(s: string)
    ensures LineScore(Reverse(s)) == LineScore(s)
  {
    HeadUniqueOverlapFree("XMAS");
    HeadUniqueOverlapFree("SAMX");
    CountIsOccurrences(s, "XMAS");
    CountIsOccurrences(s, "SAMX");
    CountIsOccurrences(Reverse(s), "XMAS");
    CountIsOccurrences(Reverse(s), "SAMX");
    assert Reverse("XMAS") == "SAMX";
    assert Reverse("SAMX") == "XMAS";
    OccurrencesReverse(s, "XMAS");
    OccurrencesReverse(s, "SAMX");
  }

  /** Lists of lines that score the same line by line score the same in total. */
  lemma {:induction false} TotalScorePointwise(a: seq<string>, b: seq<string>)
    requires |a| == |b|
    requires forall k :: 0 <= k < |a| ==> LineScore(a[k]) == LineScore(b[k])
    ensures TotalScore(a) == TotalScore(b)
  {
    if a != [] {
      TotalScorePointwise(a[1..], b[1..]);
    }
  }

  /** The order of the lines does not matter to the total. */
  lemma {:induction false} TotalScoreReverse(lines: seq<string>)
    ensures TotalScore(Reverse(lines)) == TotalScore(lines)
  {
    if lines != [] {
      var rest := lines[1..];
      assert Reverse(lines) == Reverse(rest) + [lines[0]];
      TotalScoreAppend(Reverse(rest), [lines[0]]);
      TotalScoreReverse(rest);
      assert [lines[0]][1..] == [];
    }
  }

  /** The texts of one diagonal family of `g`. */
  function FamilyTexts(g: Grid, anti: bool): (texts: seq<string>)
    ensures |texts| == DiagonalCount(|g|, Width(g))
  {
    FamilyCellsIn(g, anti);
    ResolvePairs(PairFamily(|g|, Width(g), anti), g)
  }

  /** The diagonal strings are those of the first family, then the second. */
  lemma DiagonalsByFamily(g: Grid)
    ensures Diagonals(g) == FamilyTexts(g, true) + FamilyTexts(g, false)
  {
    var n := DiagonalCount(|g|, Width(g));
    var d := Diagonals(g);
    var pairs := DiagonalPairs(|g|, Width(g));
    forall x | 0 <= x < |d| ensures d[x] == (FamilyTexts(g, true) + FamilyTexts(g, false))[x] {
      if x < n {
        assert pairs[x] == PairFamily(|g|, Width(g), true)[x];
      } else {
        assert pairs[x] == PairFamily(|g|, Width(g), false)[x - n];
      }
    }
  }

  /** `Lo` and `Hi` split the diagonal index: `Lo(x, rows) + Hi(x, rows) == x`. */
  lemma LoHi(x: nat, n: nat)
    requires n > 0
    ensures Lo(x, n) + Hi(x, n) == x
  {
  }

  /** The cell at the mirrored position across the main diagonal. */
  function Swap(c: Cell): Cell {
    Cell(c.col, c.row)
  }

  /** Diagonal `x` of the first family of a `cols` by `rows` grid holds the
      swapped cells of diagonal `x` of a `rows` by `cols` grid, in reverse
      order. */
  lemma RisingPairsSwapped(rows: nat, cols: nat, x: nat)
    requires rows > 0 && cols > 0 && x < DiagonalCount(rows, cols)
    ensures var lineG, lineT := PairFamily(rows, cols, true)[x], PairFamily(cols, rows, true)[x];
      |lineT| == |lineG| && forall k :: 0 <= k < |lineT| ==> Reverse(lineG)[k] == Swap(lineT[k])
  {
    DiagonalClosed(rows, cols, true, x);
    DiagonalClosed(cols, rows, true, x);
    LoHi(x, rows);
    LoHi(x, cols);
  }

  /** Diagonal `x` of the second family of a `cols` by `rows` grid holds the
      swapped cells of diagonal `rows + cols - 2 - x` of a `rows` by `cols`
      grid, in the same order. */
  lemma FallingPairsSwapped(rows: nat, cols: nat, x: nat)
    requires rows > 0 && cols > 0 && x < DiagonalCount(rows, cols)
    ensures var lineG, lineT := PairFamily(rows, cols, false)[rows + cols - 2 - x], PairFamily(cols, rows, false)[x];
      |lineT| == |lineG| && forall k :: 0 <= k < |lineT| ==> lineG[k] == Swap(lineT[k])
  {
    DiagonalClosed(rows, cols, false, rows + cols - 2 - x);
    DiagonalClosed(cols, rows, false, x);
  }

  /** Reading the swapped cells of the transpose gives the same text. */
  lemma ResolveSwapped(g: Grid, t: Grid, a: seq<Cell>, b: seq<Cell>)
    requires Transposed(g, t) && CellsIn(a, g)
    requires |b| == |a| && forall k :: 0 <= k < |b| ==> a[k] == Swap(b[k])
    ensures CellsIn(b, t) && Resolve(b, t) == Resolve(a, g)
  {
    forall k | 0 <= k < |b| ensures 0 <= b[k].row < |t| && 0 <= b[k].col < |t[b[k].row]| {
      assert a[k] == Cell(b[k].col, b[k].row);
    }
    forall k | 0 <= k < |b| ensures Resolve(b, t)[k] == Resolve(a, g)[k] {
      assert a[k] == Cell(b[k].col, b[k].row);
    }
  }

  /** Reading a line backwards reverses its text. */
  lemma ResolveReverse(line: seq<Cell>, g: Grid)
    requires CellsIn(line, g)
    ensures CellsIn(Reverse(line), g) && Resolve(Reverse(line), g) == Reverse(Resolve(line, g))
  {
  }

  /** Diagonal `x` of the first family of the transpose is diagonal `x` of
      `g` read backwards. */
  lemma RisingLineTransposed(g: Grid, t: Grid, x: nat)
    requires Transposed(g, t)
    requires x < DiagonalCount(|g|, Width(g))
    ensures FamilyTexts(t, true)[x] == Reverse(FamilyTexts(g, true)[x])
  {
    var lineG := PairFamily(|g|, Width(g), true)[x];
    var lineT := PairFamily(|t|, Width(t), true)[x];
    FamilyCellsIn(g, true);
    RisingPairsSwapped(|g|, Width(g), x);
    ResolveReverse(lineG, g);
    ResolveSwapped(g, t, Reverse(lineG), lineT);
    assert FamilyTexts(g, true)[x] == Resolve(lineG, g);
    assert FamilyTexts(t, true)[x] == Resolve(lineT, t);
  }

  /** Diagonal `x` of the second family of the transpose is diagonal
      `rows + cols - 2 - x` of `g`, in the same order. */
  lemma FallingLineTransposed(g: Grid, t: Grid, x: nat)
    requires Transposed(g, t)
    requires x < DiagonalCount(|g|, Width(g))
    ensures FamilyTexts(t, false)[x] == FamilyTexts(g, false)[DiagonalCount(|g|, Width(g)) - 1 - x]
  {
    var x' := |g| + Width(g) - 2 - x;
    var lineG := PairFamily(|g|, Width(g), false)[x'];
    var lineT := PairFamily(|t|, Width(t), false)[x];
    FamilyCellsIn(g, false);
    FallingPairsSwapped(|g|, Width(g), x);
    ResolveSwapped(g, t, lineG, lineT);
    assert FamilyTexts(g, false)[x'] == Resolve(lineG, g);
    assert FamilyTexts(t, false)[x] == Resolve(lineT, t);
  }

  /** Transposing the grid leaves the diagonal total unchanged: the first
      family maps onto itself line by line with each line reversed, and the
      second family maps onto itself in reverse order of its lines. */
  lemma DiagonalsTransposed(g: Grid, t: Grid)
    requires Transposed(g, t)
    ensures TotalScore(Diagonals(t)) == TotalScore(Diagonals(g))
  {
    var n := DiagonalCount(|g|, Width(g));
    var risingG, risingT := FamilyTexts(g, true), FamilyTexts(t, true);
    var fallingG, fallingT := FamilyTexts(g, false), FamilyTexts(t, false);
    forall x | 0 <= x < n ensures LineScore(risingT[x]) == LineScore(risingG[x]) {
      RisingLineTransposed(g, t, x);
      LineScoreReverse(risingG[x]);
    }
    TotalScorePointwise(risingT, risingG);
    forall x | 0 <= x < n ensures fallingT[x] == Reverse(fallingG)[x] {
      FallingLineTransposed(g, t, x);
    }
    assert fallingT == Reverse(fallingG);
    TotalScoreReverse(fallingG);
    DiagonalsByFamily(g);
    DiagonalsByFamily(t);
    TotalScoreAppend(risingG, fallingG);
    TotalScoreAppend(risingT, fallingT);
  }

  /** Transposing a rectangular grid, which swaps the roles of its rows and
      columns, leaves the word-search total unchanged. */
  lemma WordsearchTranspose(g: Grid)
    requires Rectangular(g)
    ensures Wordsearch(Verticals(g)) == Wordsearch(g)
  {
    if |g| > 0 && Width(g) > 0 {
      var t := Verticals(g);
      VerticalsTransposed(g);
      WordsearchDecomposes(g);
      WordsearchDecomposes(t);
      DiagonalsTransposed(g, t);
    } else {
      assert Verticals(g) == [];
      WordsearchWithoutX(g);
      WordsearchWithoutX([]);
    }
  }
}
