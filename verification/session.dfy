/** The puzzle session of the `Sudoku` class: construction, grid generation,
    choice of fixed cells, edits through `replace`, and the win / double-win
    flags. Every operation returns the new session value. */
module Sessions {
  import opened Arith
  import opened Grids
  import opened Generation
  import opened Validity

  /** The engine's state. The cursor is `(self.x, self.y)`. `fixed` and
      `original` stay empty until `randomize_fixed_cells`. */
  datatype Session = Session(
    n: nat,
    symbols: seq<char>,
    grid: Grid,
    fixed: Mask,
    original: Grid,
    invalid: Mask,
    gridValid: bool,
    cursor: Pos,
    win: bool,
    doubleWin: bool)

  /** Why setup can fail: the alphabet has fewer than n * n symbols (the band
      pattern then indexes past a strand), the box size is 1 (the swap loop
      runs once and `random.sample(range(1), 2)` has no two indices to draw),
      or the fixed-cell count is negative or above n^4 (`random.sample`
      rejects it). */
  datatype SetupError = AlphabetTooShort | NoTwoIndicesToSwap | SampleSizeOutOfRange

  datatype Result<T> = Ok(value: T) | Err(error: SetupError)

  function Min(a: nat, b: nat): nat
  {
    if a <= b then a else b
  }

  /** `Sudoku(num, total_symbols)`: the first n * n symbols, no grid yet, an all-clear mask. */
  function NewSession(n: nat, totalSymbols: seq<char>): (s: Session)
    ensures s.n == n && s.grid == [] && s.fixed == [] && s.original == []
    ensures s.symbols <= totalSymbols
    ensures |s.symbols| == Min(n * n, |totalSymbols|)
    ensures Square(s.invalid, n * n) && forall p :: InGrid(s.invalid, p) ==> !MaskAt(s.invalid, p)
    ensures s.gridValid && !s.win && !s.doubleWin && s.cursor == Pos(0, 0)
  {
    Session(n, totalSymbols[..Min(n * n, |totalSymbols|)], [], [], [], MaskOf({}, n * n),
      true, Pos(0, 0), false, false)
  }

  /** A flag of a mask. */
  function MaskAt(m: Mask, p: Pos): bool
    requires InGrid(m, p)
  {
    m[p.y][p.x]
  }

  /** `ordered_grid`: the band pattern over the alphabet in its own order. */
  function OrderedGrid(s: Session): (r: Result<Session>)
    requires |s.symbols| <= s.n * s.n
    ensures r.Err? <==> |s.symbols| < s.n * s.n
    ensures r.Err? ==> r.error == AlphabetTooShort
    ensures r.Ok? ==> r.value == s.(grid := r.value.grid)
    ensures r.Ok? && Distinct(s.symbols) ==> IsSolution(r.value.grid, s.n, s.symbols)
  {
    if |s.symbols| < s.n * s.n then Err(AlphabetTooShort)
    else
      BandGridIsSolutionWhenDistinct(s.n, s.symbols);
      Ok(s.(grid := BandGrid(s.n, s.symbols)))
  }

  lemma BandGridIsSolutionWhenDistinct(n: nat, symbols: seq<char>)
    requires |symbols| == n * n
    ensures Distinct(symbols) ==> IsSolution(BandGrid(n, symbols), n, symbols)
  {
    if Distinct(symbols) {
      BandGridIsSolution(n, symbols);
    }
  }

  /** `randomize_grid`: the band pattern over a shuffle of the alphabet, then
      the swaps. `shuffled` is what `random.shuffle` produced and `swaps` what
      the swap loop drew. The grid is built before the swap loop runs, so a
      short alphabet fails first; with box size 1 the loop's single
      iteration then fails to draw two indices. */
  function RandomizeGrid(s: Session, shuffled: seq<char>, swaps: seq<Swap>): (r: Result<Session>)
    requires |s.symbols| <= s.n * s.n
    requires multiset(shuffled) == multiset(s.symbols)
    requires forall k :: 0 <= k < |swaps| ==> ValidSwap(s.n, swaps[k])
    ensures r.Err? <==> |s.symbols| < s.n * s.n || s.n == 1
    ensures r.Err? ==> r.error == if |s.symbols| < s.n * s.n then AlphabetTooShort else NoTwoIndicesToSwap
    ensures r.Ok? ==> r.value == s.(grid := r.value.grid)
    ensures r.Ok? && Distinct(s.symbols) ==> IsSolution(r.value.grid, s.n, s.symbols)
  {
    assert |shuffled| == |multiset(shuffled)| == |s.symbols|;
    if |s.symbols| < s.n * s.n then Err(AlphabetTooShort)
    else if s.n == 1 then Err(NoTwoIndicesToSwap)
    else
      RandomizedGridIsSolutionWhenDistinct(s.n, s.symbols, shuffled, swaps);
      Ok(s.(grid := RandomizedGrid(s.n, shuffled, swaps)))
  }

  lemma RandomizedGridIsSolutionWhenDistinct(n: nat, symbols: seq<char>, shuffled: seq<char>, swaps: seq<Swap>)
    requires |symbols| == n * n && multiset(shuffled) == multiset(symbols)
    requires forall k :: 0 <= k < |swaps| ==> ValidSwap(n, swaps[k])
    ensures |shuffled| == n * n
    ensures Distinct(symbols) ==> IsSolution(RandomizedGrid(n, shuffled, swaps), n, symbols)
  {
    assert |shuffled| == |multiset(shuffled)| == |symbols|;
    if Distinct(symbols) {
      RandomizedGridIsSolution(n, symbols, shuffled, swaps);
    }
  }

  /** Python's `int()` on a number: truncation toward zero. */
  function Trunc(x: real): (t: int)
    ensures x >= 0.0 ==> t >= 0 && t as real <= x < t as real + 1.0
    ensures x < 0.0 ==> t <= 0 && t as real - 1.0 < x <= t as real
  {
    if x >= 0.0 then x.Floor else -((-x).Floor)
  }

  /** `int(num ** 4 * fraction)`, with exact rather than floating-point arithmetic. */
  function FixedCount(n: nat, fraction: real): int
  {
    Trunc((n * n * n * n) as real * fraction)
  }

  /** What `random.sample(coords, k)` can return: k distinct coordinates of the grid. */
  predicate IsSample(chosen: set<Pos>, k: int, w: nat)
  {
    |chosen| == k && forall p :: p in chosen ==> p.x < w && p.y < w
  }

  /** `clear_non_fixed_cells`: blank every cell that is not fixed. */
  function ClearNonFixedCells(g: Grid, fixed: Mask, w: nat): (r: Grid)
    requires Square(g, w) && Square(fixed, w)
    ensures Square(r, w)
    ensures forall p :: InGrid(g, p) ==> At(r, p) == if MaskAt(fixed, p) then At(g, p) else Blank
  {
    seq(w, i requires 0 <= i < w => seq(w, j requires 0 <= j < w => if fixed[i][j] then g[i][j] else Blank))
  }

  /** `randomize_fixed_cells(fraction)` on a session whose fixed mask is still
      empty: mark the sampled cells fixed, keep the full grid as `original`,
      and blank the rest. `chosen` is what `random.sample` drew. */
  function RandomizeFixedCells(s: Session, fraction: real, chosen: set<Pos>): (r: Result<Session>)
    requires Square(s.grid, s.n * s.n) && s.fixed == []
    requires 0 <= FixedCount(s.n, fraction) <= s.n * s.n * s.n * s.n ==>
      IsSample(chosen, FixedCount(s.n, fraction), s.n * s.n)
    ensures r.Err? <==> FixedCount(s.n, fraction) < 0 || FixedCount(s.n, fraction) > s.n * s.n * s.n * s.n
    ensures r.Err? ==> r.error == SampleSizeOutOfRange
    ensures r.Ok? ==> FixedCellsSetUp(s, r.value, chosen) && |chosen| == FixedCount(s.n, fraction)
  {
    var k := FixedCount(s.n, fraction);
    if k < 0 || k > s.n * s.n * s.n * s.n then Err(SampleSizeOutOfRange)
    else
      var w := s.n * s.n;
      var fixed := MaskOf(chosen, w);
      Ok(s.(fixed := fixed, original := s.grid, grid := ClearNonFixedCells(s.grid, fixed, w)))
  }

  /** The state right after `randomize_fixed_cells`: exactly the chosen cells
      are fixed, `original` is the grid before clearing, fixed cells keep their
      values, every other cell is blank, and nothing else changed. */
  ghost predicate FixedCellsSetUp(s: Session, r: Session, chosen: set<Pos>)
    requires Square(s.grid, s.n * s.n)
  {
    && r == s.(fixed := r.fixed, original := r.original, grid := r.grid)
    && Square(r.fixed, s.n * s.n) && Square(r.grid, s.n * s.n)
    && r.original == s.grid
    && (forall p :: InGrid(s.grid, p) ==> (MaskAt(r.fixed, p) <==> p in chosen))
    && (forall p :: InGrid(s.grid, p) && MaskAt(r.fixed, p) ==> At(r.grid, p) == At(s.grid, p))
    && (forall p :: InGrid(s.grid, p) && !MaskAt(r.fixed, p) ==> At(r.grid, p) == Blank)
  }

  /** The number of alphabet symbols in a row. */
  function RowSymbolCount(row: seq<Cell>, symbols: seq<char>): (c: nat)
    ensures c <= |row|
    ensures c == |row| <==> forall j :: 0 <= j < |row| ==> IsSymbolIn(row[j], symbols)
    decreases |row|
  {
    if |row| == 0 then 0
    else
      assert forall j :: 1 <= j < |row| ==> row[1..][j - 1] == row[j];
      (if IsSymbolIn(row[0], symbols) then 1 else 0) + RowSymbolCount(row[1..], symbols)
  }

  /** The `symbol_sum` of `grid_is_full`. */
  function SymbolCount(g: Grid, symbols: seq<char>): nat
  {
    if |g| == 0 then 0 else RowSymbolCount(g[0], symbols) + SymbolCount(g[1..], symbols)
  }

  /** Every cell of the row is an alphabet symbol. */
  ghost predicate RowFull(row: seq<Cell>, symbols: seq<char>)
  {
    forall j :: 0 <= j < |row| ==> IsSymbolIn(row[j], symbols)
  }

  /** Over rows of equal width w, the count reaches |g| * w exactly when every row is full. */
  lemma {:induction false} SymbolCountBound(g: Grid, symbols: seq<char>, w: nat)
    requires forall i :: 0 <= i < |g| ==> |g[i]| == w
    ensures SymbolCount(g, symbols) <= |g| * w
    ensures SymbolCount(g, symbols) == |g| * w <==> forall i :: 0 <= i < |g| ==> RowFull(g[i], symbols)
  {
    if |g| > 0 {
      var rest := g[1..];
      SymbolCountBound(rest, symbols, w);
      MulSucc(|rest|, w);
      assert forall i :: 1 <= i < |g| ==> rest[i - 1] == g[i];
    }
  }

  /** Row-wise fullness is `Full`. */
  lemma RowsFullIsFull(g: Grid, symbols: seq<char>)
    ensures (forall i :: 0 <= i < |g| ==> RowFull(g[i], symbols)) <==> Full(g, symbols)
  {
    if Full(g, symbols) {
      forall i | 0 <= i < |g| ensures RowFull(g[i], symbols) {
        forall j | 0 <= j < |g[i]| ensures IsSymbolIn(g[i][j], symbols) {
          assert InGrid(g, Pos(j, i));
        }
      }
    }
  }

  /** `grid_is_full`: the symbol count equals n^4, written (n * n) * (n * n). */
  function GridIsFull(g: Grid, symbols: seq<char>, n: nat): (full: bool)
    requires Square(g, n * n)
    ensures full <==> Full(g, symbols)
  {
    var w := n * n;
    SymbolCountBound(g, symbols, w);
    RowsFullIsFull(g, symbols);
    SymbolCount(g, symbols) == w * w
  }

  /** `check_for_win`: `win` is set exactly when the grid is full and
      `grid_valid` holds; `double_win` is then set if the grid equals the
      original solution and otherwise keeps its value; both are cleared when
      the grid is not a win. */
  function CheckForWin(s: Session): (r: Session)
    requires Square(s.grid, s.n * s.n)
    ensures r == s.(win := r.win, doubleWin := r.doubleWin)
    ensures r.win <==> Full(s.grid, s.symbols) && s.gridValid
    ensures r.doubleWin ==> r.win
    ensures r.win && s.grid == s.original ==> r.doubleWin
    ensures r.doubleWin && !s.doubleWin ==> s.grid == s.original
    ensures r.win && s.grid != s.original ==> r.doubleWin == s.doubleWin
  {
    if GridIsFull(s.grid, s.symbols, s.n) && s.gridValid then
      s.(win := true, doubleWin := if s.grid == s.original then true else s.doubleWin)
    else
      s.(win := false, doubleWin := false)
  }

  /** The mask flags exactly the conflicting cells of the grid. */
  ghost predicate MaskDescribes(m: Mask, g: Grid, n: nat)
  {
    Square(m, n * n) && forall p :: InGrid(g, p) && InGrid(m, p) ==> (MaskAt(m, p) <==> HasConflict(g, n, p))
  }

  /** `check_grid_validity` on the session: the mask and the flag are
      replaced by a recomputation from the grid alone. */
  function Recheck(s: Session): (r: Session)
    requires Square(s.grid, s.n * s.n)
    ensures r == s.(invalid := r.invalid, gridValid := r.gridValid)
    ensures MaskDescribes(r.invalid, s.grid, s.n)
    ensures r.gridValid <==> NoConflict(s.grid, s.n)
  {
    var v := CheckGridValidity(s.grid, s.n);
    s.(invalid := v.invalid, gridValid := v.valid)
  }

  /** Rechecking twice with no edit in between gives the same session as rechecking once. */
  lemma RecheckIdempotent(s: Session)
    requires Square(s.grid, s.n * s.n)
    ensures Recheck(Recheck(s)) == Recheck(s)
  {
  }

  /** The grid, fixed mask and cursor agree in size. */
  predicate Shaped(s: Session)
  {
    && Square(s.grid, s.n * s.n)
    && Square(s.fixed, s.n * s.n)
    && InGrid(s.grid, s.cursor)
  }

  /** `replace(char, with_check)`: a fixed cursor cell leaves everything as it
      was; otherwise only the cursor cell changes, and with the check the mask,
      `grid_valid` and the win flags are recomputed from the new grid, the
      double win being set on the original grid and otherwise kept while the
      grid is a win. */
  function Replace(s: Session, ch: Cell, withCheck: bool): (r: Session)
    requires Shaped(s)
    ensures MaskAt(s.fixed, s.cursor) ==> r == s
    ensures Shaped(r) && r.fixed == s.fixed && r.original == s.original && r.cursor == s.cursor
    ensures r.n == s.n && r.symbols == s.symbols
    ensures !MaskAt(s.fixed, s.cursor) ==> At(r.grid, s.cursor) == ch
    ensures forall p :: InGrid(s.grid, p) && p != s.cursor ==> At(r.grid, p) == At(s.grid, p)
    ensures !withCheck ==> r == s.(grid := r.grid)
    ensures withCheck && !MaskAt(s.fixed, s.cursor) ==>
      && MaskDescribes(r.invalid, r.grid, r.n)
      && (r.gridValid <==> NoConflict(r.grid, r.n))
      && (r.win <==> Full(r.grid, r.symbols) && NoConflict(r.grid, r.n))
      && (r.doubleWin ==> r.win)
      && (r.win && r.grid == s.original ==> r.doubleWin)
      && (r.win && r.grid != s.original ==> r.doubleWin == s.doubleWin)
  {
    if MaskAt(s.fixed, s.cursor) then s
    else
      var edited := s.(grid := Write(s.grid, s.cursor, ch));
      if withCheck then
        var checked := Recheck(edited);
        var r := CheckForWin(checked);
        assert r.grid == edited.grid && r.invalid == checked.invalid && r.gridValid == checked.gridValid;
        r
      else edited
  }

  /** The mask and flag describe the current grid. */
  ghost predicate MaskCurrent(s: Session)
  {
    MaskDescribes(s.invalid, s.grid, s.n) && (s.gridValid <==> NoConflict(s.grid, s.n))
  }

  /** On an n*n grid, at most one mask describes its conflicts. */
  lemma MaskDescribesUnique(m: Mask, m': Mask, g: Grid, n: nat)
    requires Square(g, n * n) && MaskDescribes(m, g, n) && MaskDescribes(m', g, n)
    ensures m == m'
  {
    forall i | 0 <= i < n * n ensures m[i] == m'[i] {
      forall j | 0 <= j < n * n ensures m[i][j] == m'[i][j] {
        assert InGrid(g, Pos(j, i)) && InGrid(m, Pos(j, i));
      }
    }
  }

  /** Typing a symbol into a blank free cell and then blanking it restores the
      grid, the conflict mask and the validity flag, and leaves neither win flag set. */
  lemma ReplaceRoundTrip(s: Session, c: char)
    requires Shaped(s) && MaskCurrent(s)
    requires !MaskAt(s.fixed, s.cursor) && At(s.grid, s.cursor) == Blank
    ensures Replace(Replace(s, Sym(c), true), Blank, true).grid == s.grid
    ensures Replace(Replace(s, Sym(c), true), Blank, true).invalid == s.invalid
    ensures Replace(Replace(s, Sym(c), true), Blank, true).gridValid == s.gridValid
    ensures !Replace(Replace(s, Sym(c), true), Blank, true).win
    ensures !Replace(Replace(s, Sym(c), true), Blank, true).doubleWin
  {
    var s1 := Replace(s, Sym(c), true);
    var r := Replace(s1, Blank, true);
    assert r.grid == s.grid by {
      RewriteRestores(s.grid, s.cursor, Sym(c), s.n * s.n);
    }
    MaskDescribesUnique(r.invalid, s.invalid, s.grid, s.n);
    assert !IsSymbolIn(At(r.grid, s.cursor), s.symbols);
  }

  /** A checked edit that changes a free cell of a solved grid ends the win:
      a blank or a character outside the alphabet leaves the grid not full,
      and another symbol repeats the one already in the cell's row. So
      `replace` never carries a double win onto a grid other than the original. */
  lemma EditingSolutionEndsWin(s: Session, ch: Cell)
    requires Shaped(s) && IsSolution(s.grid, s.n, s.symbols)
    requires !MaskAt(s.fixed, s.cursor) && ch != At(s.grid, s.cursor)
    ensures !Replace(s, ch, true).win && !Replace(s, ch, true).doubleWin
  {
    var r := Replace(s, ch, true);
    var p := s.cursor;
    if IsSymbolIn(ch, s.symbols) {
      assert IsRegion(s.n, Row(p.y));
      assert ExactlyOnce(s.grid, s.n, Row(p.y), ch.c);
      var q :| InGrid(s.grid, q) && InRegion(s.n, Row(p.y), q) && At(s.grid, q) == ch;
      assert Conflict(r.grid, r.n, p, q);
    } else {
      assert !IsSymbolIn(At(r.grid, p), r.symbols);
    }
  }

  /** Overwriting a cell and then writing its old value back restores the grid. */
  lemma RewriteRestores(g: Grid, p: Pos, c: Cell, w: nat)
    requires Square(g, w) && InGrid(g, p)
    ensures Write(Write(g, p, c), p, At(g, p)) == g
  {
    GridsEqual(Write(Write(g, p, c), p, At(g, p)), g, w);
  }

  /** The whole setup of the application: construct, randomize the grid, fix
      cells. Setup fails at box size 1, where the swap loop cannot draw two
      indices; otherwise the result keeps a solved grid as `original`, shows only blanks
      and alphabet symbols, and the all-clear mask and `grid_valid` it started
      with already describe the puzzle grid. */
  lemma SetupGivesConsistentPuzzle(n: nat, totalSymbols: seq<char>, shuffled: seq<char>, swaps: seq<Swap>,
                                   fraction: real, chosen: set<Pos>)
    requires |totalSymbols| >= n * n && Distinct(totalSymbols)
    requires multiset(shuffled) == multiset(totalSymbols[..n * n])
    requires forall k :: 0 <= k < |swaps| ==> ValidSwap(n, swaps[k])
    requires 0.0 <= fraction <= 1.0
    requires IsSample(chosen, FixedCount(n, fraction), n * n)
    ensures RandomizeGrid(NewSession(n, totalSymbols), shuffled, swaps).Ok? <==> n != 1
    ensures n != 1 ==> var s := RandomizeGrid(NewSession(n, totalSymbols), shuffled, swaps).value;
      && RandomizeFixedCells(s, fraction, chosen).Ok?
      && var r := RandomizeFixedCells(s, fraction, chosen).value;
      && IsSolution(r.original, n, r.symbols)
      && CellsWellFormed(r.grid, r.symbols)
      && MaskCurrent(r)
      && !r.win && !r.doubleWin
  {
    var s0 := NewSession(n, totalSymbols);
    assert s0.symbols == totalSymbols[..n * n];
    assert Distinct(s0.symbols);
    if n != 1 {
      var s := RandomizeGrid(s0, shuffled, swaps).value;
      assert IsSolution(s.grid, n, s.symbols);
      FixedCountInRange(n, fraction);
      var r := RandomizeFixedCells(s, fraction, chosen).value;
      assert FixedCellsSetUp(s, r, chosen);
      SolutionHasNoConflict(s.grid, n, s.symbols);
      ClearingKeepsNoConflict(s.grid, r.grid, n);
      assert CellsWellFormed(r.grid, r.symbols) by {
        forall p | InGrid(r.grid, p) ensures At(r.grid, p) == Blank || IsSymbolIn(At(r.grid, p), r.symbols) {
          assert InGrid(s.grid, p);
        }
      }
      assert MaskDescribes(r.invalid, r.grid, n) by {
        forall p | InGrid(r.grid, p) && InGrid(r.invalid, p) ensures !HasConflict(r.grid, n, p) {
          assert forall q :: InGrid(r.grid, q) ==> !Conflict(r.grid, n, p, q);
        }
      }
    }
  }

  /** A fraction in [0, 1] gives a sample size `random.sample` accepts. */
  lemma FixedCountInRange(n: nat, fraction: real)
    requires 0.0 <= fraction <= 1.0
    ensures 0 <= FixedCount(n, fraction) <= n * n * n * n
  {
    var count := n * n * n * n;
    SampleSizeWithin(count, fraction);
    assert FixedCount(n, fraction) == Trunc(count as real * fraction);
  }

  /** Truncating a fraction in [0, 1] of c gives an integer in 0 .. c. */
  lemma SampleSizeWithin(c: nat, fraction: real)
    requires 0.0 <= fraction <= 1.0
    ensures 0 <= Trunc(c as real * fraction) <= c
  {
    ScaleWithin(c as real, fraction);
  }

  /** Scaling a non-negative amount by a fraction in [0, 1] stays within [0, amount]. */
  lemma ScaleWithin(a: real, f: real)
    requires 0.0 <= a && 0.0 <= f <= 1.0
    ensures 0.0 <= a * f <= a
  {
    assert a * f <= a * 1.0;
  }

  /** Blanking cells never creates a conflict. */
  lemma ClearingKeepsNoConflict(g: Grid, h: Grid, n: nat)
    requires Square(g, n * n) && Square(h, n * n) && NoConflict(g, n)
    requires forall p :: InGrid(g, p) ==> At(h, p) == At(g, p) || At(h, p) == Blank
    ensures NoConflict(h, n)
  {
    forall p, q | InGrid(h, p) && InGrid(h, q)
      ensures !Conflict(h, n, p, q)
    {
      assert !Conflict(g, n, p, q);
    }
  }
}
