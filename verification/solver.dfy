/** The backtracking solver of the engine (`find_free_cells`, `solve`). The
    free cells are visited in row-major order; each is tried with the alphabet
    in order, resuming after the symbol it held last, and the search steps
    back when no symbol fits. */
module Solver {
  import opened Arith
  import opened Grids
  import opened Validity
  import opened Sessions

  /** `find_free_cells`: the cells not marked fixed, in row-major order. */
  function FindFreeCells(fixed: Mask, n: nat): (free: seq<Pos>)
    ensures forall p :: p in free <==> p.x < n * n && p.y < n * n && InGrid(fixed, p) && !MaskAt(fixed, p)
    ensures Increasing(free)
  {
    RowMajor(n * n, p => InGrid(fixed, p) && !MaskAt(fixed, p))
  }

  /** The three regions through p are valid (blanks ignored). */
  ghost predicate Settled(g: Grid, symbols: seq<char>, n: nat, p: Pos)
  {
    && n > 0
    && RegionValid(g, symbols, n, Row(p.y))
    && RegionValid(g, symbols, n, Column(p.x))
    && RegionValid(g, symbols, n, BoxOf(n, p))
  }

  /** The row, column and box checks `solve` runs after writing a candidate. */
  function Fits(g: Grid, symbols: seq<char>, n: nat, p: Pos): (ok: bool)
    requires Square(g, n * n) && InGrid(g, p)
    ensures ok <==> Settled(g, symbols, n, p)
  {
    assert n * n > 0;
    CheckRowValidity(g, symbols, n, p.y)
      && CheckColumnValidity(g, symbols, n, p.x)
      && CheckBoxValidity(g, symbols, n, p.x, p.y)
  }

  /** The outcome of the candidate loop of one step: a symbol was placed
      (`k` is its position in the alphabet), or every candidate failed. */
  datatype Attempt = Placed(grid: Grid, k: nat) | Exhausted(grid: Grid)

  /** Writing the same cell twice keeps only the second value. */
  lemma WriteTwice(g: Grid, p: Pos, a: Cell, b: Cell)
    requires InGrid(g, p)
    ensures Write(Write(g, p, a), p, b) == Write(g, p, b)
  {
    var row := g[p.y];
    assert row[p.x := a][p.x := b] == row[p.x := b];
  }

  /** Writing what a cell already holds changes nothing. */
  lemma WriteUnchanged(g: Grid, p: Pos)
    requires InGrid(g, p)
    ensures Write(g, p, At(g, p)) == g
  {
    assert g[p.y][p.x := g[p.y][p.x]] == g[p.y];
  }

  /** Candidate c, written at p, passes the row, column and box checks. */
  ghost predicate Accepts(g: Grid, symbols: seq<char>, n: nat, p: Pos, c: char)
    requires InGrid(g, p)
  {
    Settled(Write(g, p, Sym(c)), symbols, n, p)
  }

  /** Whether a candidate fits does not depend on what p held before. */
  lemma AcceptsIgnoresCell(g: Grid, symbols: seq<char>, n: nat, p: Pos, x: Cell)
    requires InGrid(g, p)
    ensures forall c :: Accepts(Write(g, p, x), symbols, n, p, c) <==> Accepts(g, symbols, n, p, c)
  {
    forall c ensures Accepts(Write(g, p, x), symbols, n, p, c) <==> Accepts(g, symbols, n, p, c) {
      WriteTwice(g, p, x, Sym(c));
    }
  }

  /** What the candidate loop at p, started at candidate `from`, leaves: the
      first candidate from `from` on that passes the checks, written at p; or,
      when none passes, p blanked (untouched when no candidate was left). */
  ghost predicate FirstAccepted(g: Grid, symbols: seq<char>, n: nat, p: Pos, from: nat, a: Attempt)
    requires InGrid(g, p)
  {
    && (a.Placed? ==> from <= a.k < |symbols| && a.grid == Write(g, p, Sym(symbols[a.k])))
    && (a.Placed? ==> Accepts(g, symbols, n, p, symbols[a.k]))
    && (a.Placed? ==> forall j :: from <= j < a.k ==> !Accepts(g, symbols, n, p, symbols[j]))
    && (a.Exhausted? ==> forall j :: from <= j < |symbols| ==> !Accepts(g, symbols, n, p, symbols[j]))
    && (a.Exhausted? ==> a.grid == if from < |symbols| then Write(g, p, Blank) else g)
  }

  /** The inner `while candidate_index < len(self.symbols)` loop at free cell p,
      starting at candidate `from`: each candidate is written, kept if the row,
      column and box checks pass, and blanked otherwise. */
  function TryCandidates(g: Grid, symbols: seq<char>, n: nat, p: Pos, from: nat): (a: Attempt)
    requires Square(g, n * n) && InGrid(g, p) && from <= |symbols|
    ensures FirstAccepted(g, symbols, n, p, from, a)
    decreases |symbols| - from
  {
    if from == |symbols| then Exhausted(g)
    else
      var h := Write(g, p, Sym(symbols[from]));
      if Fits(h, symbols, n, p) then Placed(h, from)
      else
        var a := TryCandidates(Write(h, p, Blank), symbols, n, p, from + 1);
        SkipRejected(g, symbols, n, p, from, a);
        a
  }

  /** Some candidate from `from` on passes the checks at p. */
  ghost predicate AnyFits(g: Grid, symbols: seq<char>, n: nat, p: Pos, from: nat)
    requires InGrid(g, p)
  {
    exists j :: from <= j < |symbols| && Accepts(g, symbols, n, p, symbols[j])
  }

  /** Candidate k is the first from `from` on that passes the checks at p. */
  ghost predicate FirstFit(g: Grid, symbols: seq<char>, n: nat, p: Pos, from: nat, k: int)
    requires InGrid(g, p)
  {
    && from <= k < |symbols|
    && Accepts(g, symbols, n, p, symbols[k])
    && forall j :: from <= j < k ==> !Accepts(g, symbols, n, p, symbols[j])
  }

  /** A rejected candidate is blanked again, so the rest of the loop runs on
      a grid that differs from g at most at p, where nothing depends on it. */
  lemma SkipRejected(g: Grid, symbols: seq<char>, n: nat, p: Pos, from: nat, a: Attempt)
    requires InGrid(g, p) && from < |symbols|
    requires !Accepts(g, symbols, n, p, symbols[from])
    requires FirstAccepted(Write(Write(g, p, Sym(symbols[from])), p, Blank), symbols, n, p, from + 1, a)
    ensures FirstAccepted(g, symbols, n, p, from, a)
  {
    WriteTwice(g, p, Sym(symbols[from]), Blank);
    AcceptsIgnoresCell(g, symbols, n, p, Blank);
    WriteTwice(g, p, Blank, Blank);
    if a.Placed? {
      WriteTwice(g, p, Blank, Sym(symbols[a.k]));
    }
  }

  /** The cell a free cell holds for its `candidates_last_tested` entry:
      0 means nothing tried (blank), k + 1 means symbol k. */
  function CellFor(symbols: seq<char>, v: nat): Cell
    requires v <= |symbols|
  {
    if v == 0 then Blank else Sym(symbols[v - 1])
  }

  /** What the search works on: the alphabet, the fixed mask, the grid it
      started from and the free-cell list. */
  datatype Puzzle = Puzzle(n: nat, symbols: seq<char>, fixed: Mask, start: Grid, free: seq<Pos>)

  /** The loop state of `solve`: the grid, `index`, `candidates_last_tested`
      (as positions, see `CellFor`) and the cursor. */
  datatype Search = Search(grid: Grid, index: int, resume: seq<nat>, cursor: Pos)

  /** The free-cell list is exactly the non-fixed cells, in order, and they all start blank. */
  ghost predicate ValidPuzzle(z: Puzzle)
  {
    && Square(z.start, z.n * z.n)
    && Square(z.fixed, z.n * z.n)
    && Increasing(z.free)
    && (forall i :: 0 <= i < |z.free| ==> InGrid(z.start, z.free[i]) && !MaskAt(z.fixed, z.free[i]))
    && (forall p :: InGrid(z.start, p) && !MaskAt(z.fixed, p) ==> p in z.free)
    && (forall i :: 0 <= i < |z.free| ==> At(z.start, z.free[i]) == Blank)
  }

  /** The sizes a step needs. */
  ghost predicate SearchShape(z: Puzzle, st: Search)
  {
    && Square(st.grid, z.n * z.n)
    && -1 <= st.index <= |z.free|
    && |st.resume| == |z.free|
    && (forall i :: 0 <= i < |z.free| ==> st.resume[i] <= |z.symbols|)
  }

  /** The loop invariant of the search: the cells before `index` hold a symbol
      whose regions are valid, the cells after it are untouched (blank), every
      free cell shows its last-tried symbol, and fixed cells never change. */
  ghost predicate Inv(z: Puzzle, st: Search)
    requires ValidPuzzle(z)
  {
    && SearchShape(z, st)
    && (forall i :: 0 <= i < |z.free| && i < st.index ==> st.resume[i] >= 1)
    && (forall i :: 0 <= i < |z.free| && st.index < i ==> st.resume[i] == 0)
    && (forall i :: 0 <= i < |z.free| ==> At(st.grid, z.free[i]) == CellFor(z.symbols, st.resume[i]))
    && (forall i :: 0 <= i < |z.free| && i < st.index ==> Settled(st.grid, z.symbols, z.n, z.free[i]))
    && (forall p :: InGrid(z.start, p) && MaskAt(z.fixed, p) ==> At(st.grid, p) == At(z.start, p))
  }

  /** The state `solve` starts in. */
  function Initial(z: Puzzle, cursor: Pos): (st: Search)
    requires ValidPuzzle(z)
    ensures Inv(z, st) && st.index == 0
  {
    Search(z.start, 0, seq(|z.free|, i => 0), cursor)
  }

  /** The digits of the termination measure: 2v - 1 before the index,
      2v at it, 0 after it. Every step raises the digit string
      lexicographically. */
  function Progress(resume: seq<nat>, index: int): (d: seq<nat>)
    requires forall i :: 0 <= i < |resume| && i < index ==> resume[i] >= 1
    ensures |d| == |resume|
  {
    seq(|resume|, i requires 0 <= i < |resume| =>
      if i < index then 2 * resume[i] - 1 else if i == index then 2 * resume[i] else 0)
  }

  function Base(z: Puzzle): nat
  {
    2 * |z.symbols| + 1
  }

  ghost function Rank(z: Puzzle, st: Search): nat
    requires ValidPuzzle(z) && Inv(z, st)
  {
    Potential(Progress(st.resume, st.index), Base(z))
  }

  /** The rank is bounded, so it can rise only finitely often. */
  lemma RankBelow(z: Puzzle, st: Search)
    requires ValidPuzzle(z) && Inv(z, st)
    ensures Rank(z, st) < Pow(Base(z), |z.free|)
  {
    ProgressDigits(z, st);
    PotentialBelow(Progress(st.resume, st.index), Base(z));
  }

  /** Only the written cell changes, so a free cell other than free[i] keeps
      its content; free cells are pairwise different. */
  lemma FreeDistinct(z: Puzzle, i: int, j: int)
    requires ValidPuzzle(z) && 0 <= i < |z.free| && 0 <= j < |z.free| && i != j
    ensures z.free[i] != z.free[j]
  {
    if i < j {
      assert Before(z.free[i], z.free[j]);
    } else {
      assert Before(z.free[j], z.free[i]);
    }
  }

  /** A cell written at q keeps region r valid when q is outside r or the value is blank. */
  lemma WriteKeepsRegionValid(g: Grid, symbols: seq<char>, n: nat, r: Region, q: Pos, c: Cell)
    requires InGrid(g, q) && RegionValid(g, symbols, n, r)
    requires c == Blank || !InRegion(n, r, q)
    ensures RegionValid(Write(g, q, c), symbols, n, r)
  {
    var h := Write(g, q, c);
    forall p, p' | InGrid(h, p) && InGrid(h, p') && InRegion(n, r, p) && InRegion(n, r, p') && p != p'
      && IsSymbolIn(At(h, p), symbols)
      ensures At(h, p) != At(h, p')
    {
      assert InGrid(g, p) && InGrid(g, p');
      if p != q && p' != q {
        assert At(g, p) != At(g, p');
      }
    }
  }

  /** Writing at q keeps p's regions valid when the write is a blank or q's
      own regions are valid afterwards. */
  lemma WriteKeepsSettled(g: Grid, symbols: seq<char>, n: nat, p: Pos, q: Pos, c: Cell)
    requires InGrid(g, q) && Settled(g, symbols, n, p)
    requires c == Blank || Settled(Write(g, q, c), symbols, n, q)
    ensures Settled(Write(g, q, c), symbols, n, p)
  {
    if c != Blank && InRegion(n, Row(p.y), q) {
      assert Row(p.y) == Row(q.y);
    } else {
      WriteKeepsRegionValid(g, symbols, n, Row(p.y), q, c);
    }
    if c != Blank && InRegion(n, Column(p.x), q) {
      assert Column(p.x) == Column(q.x);
    } else {
      WriteKeepsRegionValid(g, symbols, n, Column(p.x), q, c);
    }
    if c != Blank && InRegion(n, BoxOf(n, p), q) {
      assert BoxOf(n, p) == BoxOf(n, q);
    } else {
      WriteKeepsRegionValid(g, symbols, n, BoxOf(n, p), q, c);
    }
  }

  /** A write at the current free cell keeps the other free cells and the fixed cells. */
  lemma WriteAtFree(z: Puzzle, st: Search, c: Cell)
    requires ValidPuzzle(z) && SearchShape(z, st) && 0 <= st.index < |z.free|
    requires forall p :: InGrid(z.start, p) && MaskAt(z.fixed, p) ==> At(st.grid, p) == At(z.start, p)
    ensures InGrid(st.grid, z.free[st.index])
    ensures forall i :: 0 <= i < |z.free| && i != st.index ==>
      At(Write(st.grid, z.free[st.index], c), z.free[i]) == At(st.grid, z.free[i])
    ensures forall p :: InGrid(z.start, p) && MaskAt(z.fixed, p) ==>
      At(Write(st.grid, z.free[st.index], c), p) == At(z.start, p)
  {
    var q := z.free[st.index];
    forall i | 0 <= i < |z.free| && i != st.index
      ensures At(Write(st.grid, q, c), z.free[i]) == At(st.grid, z.free[i])
    {
      FreeDistinct(z, i, st.index);
    }
  }

  /** Recording v for the current free cell and writing the cell it stands
      for keeps every free cell showing its entry and every fixed cell as it
      started. */
  lemma RecordKeepsCells(z: Puzzle, st: Search, v: nat)
    requires ValidPuzzle(z) && Inv(z, st) && 0 <= st.index < |z.free| && v <= |z.symbols|
    ensures InGrid(st.grid, z.free[st.index])
    ensures var h := Write(st.grid, z.free[st.index], CellFor(z.symbols, v));
      && Square(h, z.n * z.n)
      && (forall i :: 0 <= i < |z.free| ==> At(h, z.free[i]) == CellFor(z.symbols, st.resume[st.index := v][i]))
      && (forall p :: InGrid(z.start, p) && MaskAt(z.fixed, p) ==> At(h, p) == At(z.start, p))
  {
    WriteAtFree(z, st, CellFor(z.symbols, v));
  }

  /** The cells before the current one stay settled after a write at the
      current cell that is a blank or leaves the current cell settled. */
  lemma EarlierStaySettled(z: Puzzle, st: Search, c: Cell)
    requires ValidPuzzle(z) && Inv(z, st) && 0 <= st.index < |z.free|
    requires InGrid(st.grid, z.free[st.index])
    requires c == Blank || Settled(Write(st.grid, z.free[st.index], c), z.symbols, z.n, z.free[st.index])
    ensures forall i :: 0 <= i < |z.free| && i <= st.index && (c == Blank ==> i < st.index) ==>
      Settled(Write(st.grid, z.free[st.index], c), z.symbols, z.n, z.free[i])
  {
    var q := z.free[st.index];
    forall i | 0 <= i < |z.free| && i <= st.index && (c == Blank ==> i < st.index)
      ensures Settled(Write(st.grid, q, c), z.symbols, z.n, z.free[i])
    {
      if i < st.index {
        WriteKeepsSettled(st.grid, z.symbols, z.n, z.free[i], q, c);
      }
    }
  }

  /** Placing candidate k at the current cell advances the search and keeps the invariant. */
  lemma PlacedKeepsInv(z: Puzzle, st: Search, k: nat)
    requires ValidPuzzle(z) && Inv(z, st) && 0 <= st.index < |z.free|
    requires st.resume[st.index] <= k < |z.symbols|
    requires Settled(Write(st.grid, z.free[st.index], Sym(z.symbols[k])), z.symbols, z.n, z.free[st.index])
    ensures Inv(z, Search(Write(st.grid, z.free[st.index], Sym(z.symbols[k])), st.index + 1,
                          st.resume[st.index := k + 1], z.free[st.index]))
  {
    var q := z.free[st.index];
    var h := Write(st.grid, q, Sym(z.symbols[k]));
    var resume := st.resume[st.index := k + 1];
    RecordKeepsCells(z, st, k + 1);
    assert CellFor(z.symbols, k + 1) == Sym(z.symbols[k]);
    EarlierStaySettled(z, st, Sym(z.symbols[k]));
    assert forall i :: 0 <= i < |z.free| && i < st.index + 1 ==> resume[i] >= 1;
    InvOfParts(z, h, st.index + 1, resume, q);
  }

  /** The invariant, assembled from its parts for a state given by its fields. */
  lemma InvOfParts(z: Puzzle, h: Grid, index: int, resume: seq<nat>, cursor: Pos)
    requires ValidPuzzle(z)
    requires Square(h, z.n * z.n) && -1 <= index <= |z.free| && |resume| == |z.free|
    requires forall i :: 0 <= i < |z.free| ==> resume[i] <= |z.symbols|
    requires forall i :: 0 <= i < |z.free| && i < index ==> resume[i] >= 1
    requires forall i :: 0 <= i < |z.free| && index < i ==> resume[i] == 0
    requires forall i :: 0 <= i < |z.free| ==> At(h, z.free[i]) == CellFor(z.symbols, resume[i])
    requires forall i :: 0 <= i < |z.free| && i < index ==> Settled(h, z.symbols, z.n, z.free[i])
    requires forall p :: InGrid(z.start, p) && MaskAt(z.fixed, p) ==> At(h, p) == At(z.start, p)
    ensures Inv(z, Search(h, index, resume, cursor))
  {
  }

  /** Moving forward after raising the current entry raises the rank: the
      digit at the old index goes from 2v to 2v' - 1 with v' > v. */
  lemma ForwardRaisesRank(z: Puzzle, st: Search, next: Search)
    requires ValidPuzzle(z) && Inv(z, st) && Inv(z, next) && 0 <= st.index < |z.free|
    requires next.index == st.index + 1
    requires next.resume == st.resume[st.index := next.resume[st.index]]
    requires next.resume[st.index] > st.resume[st.index]
    ensures Rank(z, st) < Rank(z, next)
  {
    RankRises(z, st, next, st.index);
  }

  /** Moving back after clearing the current entry raises the rank: the
      digit at the new index goes from 2v - 1 to 2v. */
  lemma BackwardRaisesRank(z: Puzzle, st: Search, next: Search)
    requires ValidPuzzle(z) && Inv(z, st) && Inv(z, next) && 0 < st.index < |z.free|
    requires next.index == st.index - 1
    requires next.resume == st.resume[st.index := 0]
    ensures Rank(z, st) < Rank(z, next)
  {
    RankRises(z, st, next, next.index);
  }

  /** The rank rises when the digit strings first differ at m, upwards. */
  lemma RankRises(z: Puzzle, st: Search, next: Search, m: nat)
    requires ValidPuzzle(z) && Inv(z, st) && Inv(z, next) && m < |z.free|
    requires forall t :: 0 <= t < m ==> Progress(st.resume, st.index)[t] == Progress(next.resume, next.index)[t]
    requires Progress(st.resume, st.index)[m] < Progress(next.resume, next.index)[m]
    ensures Rank(z, st) < Rank(z, next)
  {
    ProgressDigits(z, st);
    ProgressDigits(z, next);
    PotentialLexLess(Progress(st.resume, st.index), Progress(next.resume, next.index), Base(z), m);
  }

  /** Every digit of the measure is below the base: 2v <= 2|symbols|. */
  lemma ProgressDigits(z: Puzzle, st: Search)
    requires ValidPuzzle(z) && Inv(z, st)
    ensures Digits(Progress(st.resume, st.index), Base(z))
  {
    var d := Progress(st.resume, st.index);
    forall k | 0 <= k < |d| ensures d[k] < Base(z) {
      assert st.resume[k] <= |z.symbols|;
    }
  }

  /** Finding no candidate blanks the current cell, steps back and keeps the invariant. */
  lemma ExhaustedKeepsInv(z: Puzzle, st: Search)
    requires ValidPuzzle(z) && Inv(z, st) && 0 <= st.index < |z.free|
    ensures Inv(z, Search(Write(st.grid, z.free[st.index], Blank), st.index - 1,
                          st.resume[st.index := 0], z.free[st.index]))
  {
    var q := z.free[st.index];
    var h := Write(st.grid, q, Blank);
    var resume := st.resume[st.index := 0];
    RecordKeepsCells(z, st, 0);
    EarlierStaySettled(z, st, Blank);
    assert forall i :: 0 <= i < |z.free| && st.index - 1 < i ==> resume[i] == 0;
    InvOfParts(z, h, st.index - 1, resume, q);
  }

  /** One pass of the outer loop of `solve`, with the exhausted case
      corrected: when no candidate is placed the cell is blanked and the
      search steps back, also when the cell had already run through the whole
      alphabet. */
  function Step(z: Puzzle, st: Search): (next: Search)
    requires ValidPuzzle(z) && SearchShape(z, st) && 0 <= st.index < |z.free|
    ensures next.cursor == z.free[st.index] && |next.resume| == |st.resume|
    ensures next.index == st.index + 1 || next.index == st.index - 1
    ensures Square(next.grid, z.n * z.n)
    ensures next.index == st.index + 1 <==> AnyFits(st.grid, z.symbols, z.n, z.free[st.index], st.resume[st.index])
    ensures next.index == st.index + 1 ==> PlacedFirstFitting(st, z.symbols, z.n, z.free[st.index], next)
    ensures next.index == st.index - 1 ==>
      next.grid == Write(st.grid, z.free[st.index], Blank) && next.resume == st.resume[st.index := 0]
  {
    var q := z.free[st.index];
    assert InGrid(z.start, q);
    var a := TryCandidates(st.grid, z.symbols, z.n, q, st.resume[st.index]);
    AdvanceMeaning(st, z.symbols, z.n, q, a, z.n * z.n);
    Advance(st, q, a)
  }

  /** What the step after a candidate loop means, in terms of which
      candidates pass the checks. */
  lemma AdvanceMeaning(st: Search, symbols: seq<char>, n: nat, q: Pos, a: Attempt, w: nat)
    requires Square(st.grid, w) && InGrid(st.grid, q) && 0 <= st.index < |st.resume|
    requires FirstAccepted(st.grid, symbols, n, q, st.resume[st.index], a)
    ensures InGrid(a.grid, q)
    ensures Square(Advance(st, q, a).grid, w)
    ensures Advance(st, q, a).index == st.index + 1 <==> AnyFits(st.grid, symbols, n, q, st.resume[st.index])
    ensures Advance(st, q, a).index == st.index + 1 ==> PlacedFirstFitting(st, symbols, n, q, Advance(st, q, a))
    ensures Advance(st, q, a).index == st.index - 1 ==>
      Advance(st, q, a).grid == Write(st.grid, q, Blank) && Advance(st, q, a).resume == st.resume[st.index := 0]
  {
    if a.Placed? {
      PlacedFirstFit(st.grid, symbols, n, q, st.resume[st.index], a.grid, a.k);
    } else {
      ExhaustedNoFit(st.grid, symbols, n, q, st.resume[st.index], a.grid);
    }
  }

  /** next holds the first candidate from the resume point on that passes the
      checks at the current cell, records it, and changes nothing else. */
  ghost predicate PlacedFirstFitting(st: Search, symbols: seq<char>, n: nat, q: Pos, next: Search)
    requires InGrid(st.grid, q) && 0 <= st.index < |st.resume|
  {
    && |next.resume| == |st.resume|
    && FirstFit(st.grid, symbols, n, q, st.resume[st.index], next.resume[st.index] as int - 1)
    && next.grid == Write(st.grid, q, Sym(symbols[next.resume[st.index] - 1]))
    && next.resume == st.resume[st.index := next.resume[st.index]]
  }

  /** The state after the candidate loop at q ended with a. */
  function Advance(st: Search, q: Pos, a: Attempt): (next: Search)
    requires 0 <= st.index < |st.resume| && InGrid(a.grid, q)
    ensures next.cursor == q
  {
    if a.Placed? then Search(a.grid, st.index + 1, st.resume[st.index := a.k + 1], q)
    else Search(Write(a.grid, q, Blank), st.index - 1, st.resume[st.index := 0], q)
  }

  /** The two outcomes of the candidate loop, spelled out. */
  lemma AdvancePlaced(st: Search, q: Pos, h: Grid, k: nat)
    requires 0 <= st.index < |st.resume| && InGrid(h, q)
    ensures Advance(st, q, Placed(h, k)) == Search(h, st.index + 1, st.resume[st.index := k + 1], q)
  {
  }

  lemma AdvanceExhausted(st: Search, q: Pos, h: Grid)
    requires 0 <= st.index < |st.resume| && InGrid(h, q)
    ensures Advance(st, q, Exhausted(h)) == Search(Write(h, q, Blank), st.index - 1, st.resume[st.index := 0], q)
  {
  }

  /** Each step keeps the search invariant and raises the rank (unless it
      leaves the free-cell list at the front), and a step back leaves the cell
      it left blank. */
  lemma StepKeepsInv(z: Puzzle, st: Search)
    requires ValidPuzzle(z) && Inv(z, st) && 0 <= st.index < |z.free|
    ensures Inv(z, Step(z, st))
    ensures Step(z, st).index >= 0 ==> Rank(z, st) < Rank(z, Step(z, st))
    ensures Step(z, st).index == st.index - 1 ==> At(Step(z, st).grid, z.free[st.index]) == Blank
  {
    var q := z.free[st.index];
    assert InGrid(z.start, q);
    match TryCandidates(st.grid, z.symbols, z.n, q, st.resume[st.index])
    case Placed(h, k) => StepWhenPlaced(z, st, h, k);
    case Exhausted(h) => StepWhenExhausted(z, st, h);
  }

  /** A step runs the candidate loop at the current free cell and advances on its outcome. */
  lemma StepCases(z: Puzzle, st: Search, a: Attempt)
    requires ValidPuzzle(z) && SearchShape(z, st) && 0 <= st.index < |z.free|
    requires InGrid(st.grid, z.free[st.index])
    requires a == TryCandidates(st.grid, z.symbols, z.n, z.free[st.index], st.resume[st.index])
    ensures InGrid(a.grid, z.free[st.index])
    ensures Step(z, st) == Advance(st, z.free[st.index], a)
  {
  }

  /** A step whose candidate loop placed symbol k moves on to the next free
      cell, keeping the invariant and raising the rank. */
  lemma StepWhenPlaced(z: Puzzle, st: Search, h: Grid, k: nat)
    requires ValidPuzzle(z) && Inv(z, st) && 0 <= st.index < |z.free|
    requires InGrid(st.grid, z.free[st.index])
    requires TryCandidates(st.grid, z.symbols, z.n, z.free[st.index], st.resume[st.index]) == Placed(h, k)
    ensures Step(z, st) == Search(h, st.index + 1, st.resume[st.index := k + 1], z.free[st.index])
    ensures Inv(z, Step(z, st)) && Rank(z, st) < Rank(z, Step(z, st))
  {
    StepCases(z, st, Placed(h, k));
    AdvancePlaced(st, z.free[st.index], h, k);
    PlacedKeepsInv(z, st, k);
    ForwardRaisesRank(z, st, Step(z, st));
  }

  /** A step whose candidate loop placed nothing blanks the cell and moves
      back, keeping the invariant and raising the rank unless it leaves the
      free-cell list. */
  lemma StepWhenExhausted(z: Puzzle, st: Search, h: Grid)
    requires ValidPuzzle(z) && Inv(z, st) && 0 <= st.index < |z.free|
    requires InGrid(st.grid, z.free[st.index])
    requires TryCandidates(st.grid, z.symbols, z.n, z.free[st.index], st.resume[st.index]) == Exhausted(h)
    ensures Step(z, st) == Search(Write(h, z.free[st.index], Blank), st.index - 1, st.resume[st.index := 0], z.free[st.index])
    ensures Inv(z, Step(z, st)) && (Step(z, st).index >= 0 ==> Rank(z, st) < Rank(z, Step(z, st)))
    ensures At(Step(z, st).grid, z.free[st.index]) == Blank
  {
    StepCases(z, st, Exhausted(h));
    AdvanceExhausted(st, z.free[st.index], h);
    WriteTwice(st.grid, z.free[st.index], Blank, Blank);
    ExhaustedKeepsInv(z, st);
    if st.index > 0 {
      BackwardRaisesRank(z, st, Step(z, st));
    }
  }

  /** The outer loop as the source writes it: after the candidate loop the
      search steps back only if the cell is blank, and otherwise steps forward. */
  function StepAsWritten(z: Puzzle, st: Search): (next: Search)
    requires ValidPuzzle(z) && SearchShape(z, st) && 0 <= st.index < |z.free|
    ensures next.cursor == z.free[st.index] && |next.resume| == |st.resume|
    ensures next.index == st.index + 1 || next.index == st.index - 1
    ensures AnyFits(st.grid, z.symbols, z.n, z.free[st.index], st.resume[st.index]) ==>
      next.index == st.index + 1 && PlacedFirstFitting(st, z.symbols, z.n, z.free[st.index], next)
    ensures !AnyFits(st.grid, z.symbols, z.n, z.free[st.index], st.resume[st.index]) ==>
      (next.index == st.index - 1 <==> st.resume[st.index] < |z.symbols| || At(st.grid, z.free[st.index]) == Blank)
    ensures next.index == st.index - 1 ==>
      next.grid == Write(st.grid, z.free[st.index], Blank) && next.resume == st.resume[st.index := 0]
    ensures !AnyFits(st.grid, z.symbols, z.n, z.free[st.index], st.resume[st.index]) && next.index == st.index + 1 ==>
      next.grid == st.grid && next.resume == st.resume
  {
    var q := z.free[st.index];
    assert InGrid(z.start, q);
    var a := TryCandidates(st.grid, z.symbols, z.n, q, st.resume[st.index]);
    AsWrittenMeaning(st, z.symbols, z.n, q, a);
    AdvanceAsWritten(st, q, a)
  }

  /** The state after the candidate loop at q ended with a, as the source
      decides it: step back only if the cell is blank. */
  function AdvanceAsWritten(st: Search, q: Pos, a: Attempt): (next: Search)
    requires 0 <= st.index < |st.resume| && InGrid(a.grid, q)
    ensures next.cursor == q && |next.resume| == |st.resume|
  {
    match a
    case Placed(h, k) => Search(h, st.index + 1, st.resume[st.index := k + 1], q)
    case Exhausted(h) =>
      if At(h, q) == Blank then Search(h, st.index - 1, st.resume[st.index := 0], q)
      else Search(h, st.index + 1, st.resume, q)
  }

  /** What the source's step after a candidate loop means, in terms of which
      candidates pass the checks. */
  lemma AsWrittenMeaning(st: Search, symbols: seq<char>, n: nat, q: Pos, a: Attempt)
    requires InGrid(st.grid, q) && 0 <= st.index < |st.resume|
    requires FirstAccepted(st.grid, symbols, n, q, st.resume[st.index], a)
    ensures InGrid(a.grid, q)
    ensures var next := AdvanceAsWritten(st, q, a);
      && (next.index == st.index + 1 || next.index == st.index - 1)
      && (AnyFits(st.grid, symbols, n, q, st.resume[st.index]) ==>
            next.index == st.index + 1 && PlacedFirstFitting(st, symbols, n, q, next))
      && (!AnyFits(st.grid, symbols, n, q, st.resume[st.index]) ==>
            (next.index == st.index - 1 <==> st.resume[st.index] < |symbols| || At(st.grid, q) == Blank))
      && (next.index == st.index - 1 ==>
            next.grid == Write(st.grid, q, Blank) && next.resume == st.resume[st.index := 0])
      && (!AnyFits(st.grid, symbols, n, q, st.resume[st.index]) && next.index == st.index + 1 ==>
            next.grid == st.grid && next.resume == st.resume)
  {
    if a.Placed? {
      PlacedFirstFit(st.grid, symbols, n, q, st.resume[st.index], a.grid, a.k);
    } else {
      ExhaustedNoFit(st.grid, symbols, n, q, st.resume[st.index], a.grid);
    }
  }

  /** A candidate loop that placed symbol k placed the first one that fits. */
  lemma PlacedFirstFit(g: Grid, symbols: seq<char>, n: nat, q: Pos, from: nat, h: Grid, k: nat)
    requires InGrid(g, q) && FirstAccepted(g, symbols, n, q, from, Placed(h, k))
    ensures AnyFits(g, symbols, n, q, from) && FirstFit(g, symbols, n, q, from, k)
  {
  }

  /** A candidate loop that placed nothing found no candidate that fits, and
      blanked the cell unless there was no candidate left to try. */
  lemma ExhaustedNoFit(g: Grid, symbols: seq<char>, n: nat, q: Pos, from: nat, h: Grid)
    requires InGrid(g, q) && FirstAccepted(g, symbols, n, q, from, Exhausted(h))
    ensures !AnyFits(g, symbols, n, q, from)
    ensures Write(h, q, Blank) == Write(g, q, Blank)
    ensures At(h, q) == Blank ==> h == Write(g, q, Blank)
  {
    WriteTwice(g, q, Blank, Blank);
    if At(g, q) == Blank {
      WriteUnchanged(g, q);
    }
  }

  /** The two steps differ only when the current cell has already tried the
      last symbol of the alphabet. */
  lemma StepsAgree(z: Puzzle, st: Search)
    requires ValidPuzzle(z) && Inv(z, st) && 0 <= st.index < |z.free|
    requires st.resume[st.index] < |z.symbols|
    ensures StepAsWritten(z, st) == Step(z, st)
  {
    var q := z.free[st.index];
    assert InGrid(z.start, q);
    WriteTwice(st.grid, q, Blank, Blank);
  }

  datatype Outcome = Solved | Unsolvable

  /** `solve`, with an explicit stop when the search steps back past the
      first free cell (the source would go on at index -1, which Python reads
      as the last free cell). `check_for_win` runs at the end with the
      `grid_valid` flag left from before, since `solve` writes with the check
      switched off. */
  method Solve(s: Session) returns (r: Session, outcome: Outcome)
    requires Square(s.grid, s.n * s.n) && Square(s.fixed, s.n * s.n)
    requires forall p :: InGrid(s.grid, p) && !MaskAt(s.fixed, p) ==> At(s.grid, p) == Blank
    ensures r == s.(grid := r.grid, cursor := r.cursor, win := r.win, doubleWin := r.doubleWin)
    ensures Square(r.grid, s.n * s.n)
    ensures forall p :: InGrid(s.grid, p) && MaskAt(s.fixed, p) ==> At(r.grid, p) == At(s.grid, p)
    ensures outcome == Solved ==> forall p :: InGrid(s.grid, p) && !MaskAt(s.fixed, p) ==>
      IsSymbolIn(At(r.grid, p), s.symbols) && Settled(r.grid, s.symbols, s.n, p)
    ensures outcome == Solved && NoConflict(s.grid, s.n) && CellsWellFormed(s.grid, s.symbols) ==>
      NoConflict(r.grid, s.n) && CellsWellFormed(r.grid, s.symbols)
    ensures outcome == Solved && FixedCellsFilled(s) ==> Full(r.grid, s.symbols)
    ensures outcome == Unsolvable ==> r.grid == s.grid
    ensures r.cursor == s.cursor || (InGrid(s.grid, r.cursor) && !MaskAt(s.fixed, r.cursor))
    ensures r.win <==> Full(r.grid, s.symbols) && s.gridValid
    ensures r.doubleWin ==> r.win
    ensures r.win && r.grid == s.original ==> r.doubleWin
    ensures r.win && r.grid != s.original ==> r.doubleWin == s.doubleWin
  {
    var free := FindFreeCells(s.fixed, s.n);
    var z := Puzzle(s.n, s.symbols, s.fixed, s.grid, free);
    SessionPuzzleValid(s, z);
    var st := RunSearch(z, s.cursor);
    if st.index == |free| {
      outcome := Solved;
      SolvedGrid(z, st);
      SolvedKeepsNoConflict(z, st.grid);
      SolvedIsFull(z, st.grid);
    } else {
      outcome := Unsolvable;
      UnsolvableRestores(z, st);
    }
    WinAfterSolve(s, st.grid, st.cursor);
    r := CheckForWin(s.(grid := st.grid, cursor := st.cursor));
  }

  /** `check_for_win` after `solve` changes only the two win flags, and reads
      the validity flag left from before the search. */
  lemma WinAfterSolve(s: Session, g: Grid, c: Pos)
    requires Square(g, s.n * s.n)
    ensures var r := CheckForWin(s.(grid := g, cursor := c));
      && r == s.(grid := g, cursor := c, win := r.win, doubleWin := r.doubleWin)
      && (r.win <==> Full(g, s.symbols) && s.gridValid)
      && (r.doubleWin ==> r.win)
      && (r.win && g == s.original ==> r.doubleWin)
      && (r.win && g != s.original ==> r.doubleWin == s.doubleWin)
  {
  }

  /** The puzzle `solve` sets up from a session is well formed. */
  lemma SessionPuzzleValid(s: Session, z: Puzzle)
    requires Square(s.grid, s.n * s.n) && Square(s.fixed, s.n * s.n)
    requires forall p :: InGrid(s.grid, p) && !MaskAt(s.fixed, p) ==> At(s.grid, p) == Blank
    requires z == Puzzle(s.n, s.symbols, s.fixed, s.grid, FindFreeCells(s.fixed, s.n))
    ensures ValidPuzzle(z)
  {
    forall i | 0 <= i < |z.free| ensures InGrid(s.grid, z.free[i]) && !MaskAt(s.fixed, z.free[i]) {
      assert z.free[i] in z.free;
    }
  }

  /** The outer `while` loop of `solve`: steps until the index leaves the
      free-cell list, which it does because every step inside raises the
      bounded rank. */
  method RunSearch(z: Puzzle, cursor: Pos) returns (st: Search)
    requires ValidPuzzle(z)
    ensures Inv(z, st) && (st.index == -1 || st.index == |z.free|)
    ensures st.cursor == cursor || st.cursor in z.free
  {
    st := Initial(z, cursor);
    while 0 <= st.index < |z.free|
      invariant Inv(z, st)
      invariant st.cursor == cursor || st.cursor in z.free
      decreases if 0 <= st.index < |z.free| then 1 else 0, Pow(Base(z), |z.free|) - Rank(z, st)
    {
      RankBelow(z, st);
      StepKeepsInv(z, st);
      st := Step(z, st);
      RankBelow(z, st);
    }
  }

  /** When the index passes the last free cell, every free cell is solved. */
  lemma SolvedGrid(z: Puzzle, st: Search)
    requires ValidPuzzle(z) && Inv(z, st) && st.index == |z.free|
    ensures forall p :: InGrid(z.start, p) && !MaskAt(z.fixed, p) ==>
      IsSymbolIn(At(st.grid, p), z.symbols) && Settled(st.grid, z.symbols, z.n, p)
  {
    forall p | InGrid(z.start, p) && !MaskAt(z.fixed, p)
      ensures IsSymbolIn(At(st.grid, p), z.symbols) && Settled(st.grid, z.symbols, z.n, p)
    {
      assert p in z.free;
      var i :| 0 <= i < |z.free| && z.free[i] == p;
      assert At(st.grid, p) == Sym(z.symbols[st.resume[i] - 1]);
    }
  }

  /** Every fixed cell holds an alphabet symbol (true of every puzzle set up
      from a solved grid). */
  ghost predicate FixedCellsFilled(s: Session)
  {
    forall p :: InGrid(s.grid, p) && InGrid(s.fixed, p) && MaskAt(s.fixed, p) ==> IsSymbolIn(At(s.grid, p), s.symbols)
  }

  /** Settling every free cell of a grid whose fixed cells were conflict-free
      leaves no conflict anywhere: a region with a free cell is one of that
      cell's regions, and a region without one is as it was. */
  lemma SolvedKeepsNoConflict(z: Puzzle, g: Grid)
    requires ValidPuzzle(z) && Square(g, z.n * z.n)
    requires forall p :: InGrid(z.start, p) && MaskAt(z.fixed, p) ==> At(g, p) == At(z.start, p)
    requires forall p :: InGrid(z.start, p) && !MaskAt(z.fixed, p) ==>
      IsSymbolIn(At(g, p), z.symbols) && Settled(g, z.symbols, z.n, p)
    ensures NoConflict(z.start, z.n) && CellsWellFormed(z.start, z.symbols) ==>
      NoConflict(g, z.n) && CellsWellFormed(g, z.symbols)
  {
    if NoConflict(z.start, z.n) && CellsWellFormed(z.start, z.symbols) {
      var n := z.n;
      assert CellsWellFormed(g, z.symbols) by {
        forall p | InGrid(g, p) ensures At(g, p) == Blank || IsSymbolIn(At(g, p), z.symbols) {
          assert InGrid(z.start, p);
        }
      }
      NoConflictIffRegionsValid(z.start, n, z.symbols);
      forall r | IsRegion(n, r) ensures RegionValid(g, z.symbols, n, r) {
        if p :| InGrid(g, p) && InRegion(n, r, p) && !MaskAt(z.fixed, p) {
          assert InGrid(z.start, p);
          assert Settled(g, z.symbols, n, p);
          assert r == Row(p.y) || r == Column(p.x) || r == BoxOf(n, p);
        } else {
          assert RegionValid(z.start, z.symbols, n, r);
          forall p, q | InGrid(g, p) && InGrid(g, q) && InRegion(n, r, p) && InRegion(n, r, q) && p != q
            && IsSymbolIn(At(g, p), z.symbols)
            ensures At(g, p) != At(g, q)
          {
            assert InGrid(z.start, p) && InGrid(z.start, q);
          }
        }
      }
      NoConflictIffRegionsValid(g, n, z.symbols);
    }
  }

  /** With the fixed cells filled and every free cell holding a symbol, the grid is full. */
  lemma SolvedIsFull(z: Puzzle, g: Grid)
    requires ValidPuzzle(z) && Square(g, z.n * z.n)
    requires forall p :: InGrid(z.start, p) && MaskAt(z.fixed, p) ==> At(g, p) == At(z.start, p)
    requires forall p :: InGrid(z.start, p) && !MaskAt(z.fixed, p) ==> IsSymbolIn(At(g, p), z.symbols)
    ensures (forall p :: InGrid(z.start, p) && InGrid(z.fixed, p) && MaskAt(z.fixed, p) ==>
               IsSymbolIn(At(z.start, p), z.symbols)) ==> Full(g, z.symbols)
  {
    forall p | InGrid(g, p) ensures InGrid(z.start, p) && InGrid(z.fixed, p) {
    }
  }

  /** When the search steps back past the first free cell, every free cell is
      blank again, so the grid is the one it started from. */
  lemma UnsolvableRestores(z: Puzzle, st: Search)
    requires ValidPuzzle(z) && Inv(z, st) && st.index == -1
    ensures st.grid == z.start
  {
    forall p | InGrid(z.start, p) ensures At(z.start, p) == At(st.grid, p) {
      if !MaskAt(z.fixed, p) {
        assert p in z.free;
        var i :| 0 <= i < |z.free| && z.free[i] == p;
        assert At(st.grid, p) == CellFor(z.symbols, st.resume[i]);
      }
    }
    GridsEqual(z.start, st.grid, z.n * z.n);
  }
}
