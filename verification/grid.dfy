/** The data model of the puzzle engine: cells, coordinates, grids of side
    n * n, the three kinds of constraint region (row, column, n-by-n box), and
    the grid-level meaning of "valid", "in conflict" and "solved". */
module Grids {
  import opened Arith

  /** A cell holds one symbol or is blank. The source's blank character ' '
      is always `Blank`, which never counts as a symbol; an alphabet holding
      ' ' itself is outside the model. */
  datatype Cell = Blank | Sym(c: char)

  /** A coordinate; x is the column and y the row, as in the source's (x, y) tuples. */
  datatype Pos = Pos(x: nat, y: nat)

  /** grid[y][x]: a sequence of rows. */
  type Grid = seq<seq<Cell>>

  /** Rows and columns are numbered 0 .. n*n-1, boxes 0 .. n-1 in each direction. */
  datatype Region = Row(y: nat) | Column(x: nat) | Box(boxX: nat, boxY: nat)

  predicate Distinct<T(==)>(s: seq<T>)
  {
    forall i, j :: 0 <= i < j < |s| ==> s[i] != s[j]
  }

  /** The validity checks' notion of a symbol: membership in the alphabet. */
  predicate IsSymbolIn(cell: Cell, symbols: seq<char>)
  {
    cell.Sym? && cell.c in symbols
  }

  /** A w-by-w matrix (the grid itself, or one of the flag masks beside it). */
  predicate Square<T>(g: seq<seq<T>>, w: nat)
  {
    |g| == w && forall i :: 0 <= i < |g| ==> |g[i]| == w
  }

  predicate InGrid<T>(g: seq<seq<T>>, p: Pos)
  {
    p.y < |g| && p.x < |g[p.y]|
  }

  function At(g: Grid, p: Pos): Cell
    requires InGrid(g, p)
  {
    g[p.y][p.x]
  }

  /** The grid with one cell overwritten. */
  function Write(g: Grid, p: Pos, c: Cell): (r: Grid)
    requires InGrid(g, p)
    ensures |r| == |g| && forall i :: 0 <= i < |g| ==> |r[i]| == |g[i]|
    ensures At(r, p) == c
    ensures forall q :: InGrid(g, q) && q != p ==> At(r, q) == At(g, q)
  {
    g[p.y := g[p.y][p.x := c]]
  }

  /** Every cell is blank or an alphabet symbol. On such grids the engine's two
      blank tests (`!= ' '` and `in symbols`) agree. */
  ghost predicate CellsWellFormed(g: Grid, symbols: seq<char>)
  {
    forall p :: InGrid(g, p) ==> At(g, p) == Blank || IsSymbolIn(At(g, p), symbols)
  }

  /** Every cell holds an alphabet symbol. */
  ghost predicate Full(g: Grid, symbols: seq<char>)
  {
    forall p :: InGrid(g, p) ==> IsSymbolIn(At(g, p), symbols)
  }

  /** Membership of a cell in a region; the box test is the engine's
      `i // n == y // n and j // n == x // n`. */
  predicate InRegion(n: nat, r: Region, p: Pos)
  {
    match r
    case Row(y) => p.y == y
    case Column(x) => p.x == x
    case Box(bx, bY) => n > 0 && p.y / n == bY && p.x / n == bx
  }

  /** The box holding a cell. */
  function BoxOf(n: nat, p: Pos): Region
    requires n > 0
  {
    Box(p.x / n, p.y / n)
  }

  /** The regions of a grid with box size n. */
  predicate IsRegion(n: nat, r: Region)
  {
    match r
    case Row(y) => y < n * n
    case Column(x) => x < n * n
    case Box(bx, bY) => bx < n && bY < n
  }

  /** Two cells constrain each other when they share a row, a column or a box. */
  predicate Peers(n: nat, p: Pos, q: Pos)
  {
    p.y == q.y || p.x == q.x || (n > 0 && p.y / n == q.y / n && p.x / n == q.x / n)
  }

  /** Two distinct peers hold the same non-blank character. */
  predicate Conflict(g: Grid, n: nat, p: Pos, q: Pos)
    requires InGrid(g, p) && InGrid(g, q)
  {
    p != q && Peers(n, p, q) && At(g, p) != Blank && At(g, p) == At(g, q)
  }

  ghost predicate HasConflict(g: Grid, n: nat, p: Pos)
    requires InGrid(g, p)
  {
    exists q :: InGrid(g, q) && Conflict(g, n, p, q)
  }

  ghost predicate NoConflict(g: Grid, n: nat)
  {
    forall p, q :: InGrid(g, p) && InGrid(g, q) ==> !Conflict(g, n, p, q)
  }

  /** No alphabet symbol occurs twice in the region; blanks are ignored. */
  ghost predicate RegionValid(g: Grid, symbols: seq<char>, n: nat, r: Region)
  {
    forall p, q ::
      InGrid(g, p) && InGrid(g, q) && InRegion(n, r, p) && InRegion(n, r, q) && p != q
      && IsSymbolIn(At(g, p), symbols)
      ==> At(g, p) != At(g, q)
  }

  /** Symbol c occurs in region r exactly once. */
  ghost predicate ExactlyOnce(g: Grid, n: nat, r: Region, c: char)
  {
    && (exists p :: InGrid(g, p) && InRegion(n, r, p) && At(g, p) == Sym(c))
    && (forall p, q ::
          InGrid(g, p) && InGrid(g, q) && InRegion(n, r, p) && InRegion(n, r, q)
          && At(g, p) == Sym(c) && At(g, q) == Sym(c)
          ==> p == q)
  }

  /** A solved puzzle: full, and every alphabet symbol exactly once in every
      row, column and box. */
  ghost predicate IsSolution(g: Grid, n: nat, symbols: seq<char>)
  {
    && Square(g, n * n)
    && Full(g, symbols)
    && forall r, c :: IsRegion(n, r) && c in symbols ==> ExactlyOnce(g, n, r, c)
  }

  /** A solved grid has no conflicting cells. */
  lemma SolutionHasNoConflict(g: Grid, n: nat, symbols: seq<char>)
    requires IsSolution(g, n, symbols)
    ensures NoConflict(g, n)
  {
    forall p, q | InGrid(g, p) && InGrid(g, q) && p != q && Peers(n, p, q) && At(g, p) != Blank
      ensures At(g, p) != At(g, q)
    {
      var c := At(g, p).c;
      assert IsSymbolIn(At(g, p), symbols);
      var r := SharedRegion(n, p, q);
      assert ExactlyOnce(g, n, r, c);
    }
  }

  /** A region holding both of two peers. */
  function SharedRegion(n: nat, p: Pos, q: Pos): (r: Region)
    requires Peers(n, p, q) && p.x < n * n && p.y < n * n
    ensures IsRegion(n, r) && InRegion(n, r, p) && InRegion(n, r, q)
  {
    if p.y == q.y then Row(p.y)
    else if p.x == q.x then Column(p.x)
    else
      SplitIndex(n, p.x);
      SplitIndex(n, p.y);
      BoxOf(n, p)
  }

  /** On well-formed grids, "no conflicting cell" and "every region valid" coincide. */
  lemma NoConflictIffRegionsValid(g: Grid, n: nat, symbols: seq<char>)
    requires Square(g, n * n) && CellsWellFormed(g, symbols)
    ensures NoConflict(g, n) <==> forall r :: IsRegion(n, r) ==> RegionValid(g, symbols, n, r)
  {
    if NoConflict(g, n) {
      forall r | IsRegion(n, r)
        ensures RegionValid(g, symbols, n, r)
      {
        forall p, q | InGrid(g, p) && InGrid(g, q) && InRegion(n, r, p) && InRegion(n, r, q) && p != q
          && IsSymbolIn(At(g, p), symbols)
          ensures At(g, p) != At(g, q)
        {
          assert Peers(n, p, q);
          assert !Conflict(g, n, p, q);
        }
      }
    }
    if forall r :: IsRegion(n, r) ==> RegionValid(g, symbols, n, r) {
      forall p, q | InGrid(g, p) && InGrid(g, q) && p != q && Peers(n, p, q) && At(g, p) != Blank
        ensures At(g, p) != At(g, q)
      {
        var r := SharedRegion(n, p, q);
        assert RegionValid(g, symbols, n, r);
      }
    }
  }

  /** Strict row-major order of coordinates. */
  predicate Before(p: Pos, q: Pos)
  {
    p.y < q.y || (p.y == q.y && p.x < q.x)
  }

  predicate Increasing(ps: seq<Pos>)
  {
    forall a, b :: 0 <= a < b < |ps| ==> Before(ps[a], ps[b])
  }

  /** An increasing list is determined by its elements. */
  lemma {:induction false} IncreasingDetermined(ps: seq<Pos>, qs: seq<Pos>)
    requires Increasing(ps) && Increasing(qs)
    requires forall p :: p in ps <==> p in qs
    ensures ps == qs
    decreases |ps|
  {
    assert |ps| > 0 ==> ps[0] in qs;
    assert |qs| > 0 ==> qs[0] in ps;
    if |ps| > 0 && |qs| > 0 {
      HeadsAgree(ps, qs);
      TailsAgree(ps, qs);
      IncreasingDetermined(ps[1..], qs[1..]);
      assert ps[1..] == qs[1..];
      assert ps == [ps[0]] + ps[1..];
      assert qs == [qs[0]] + qs[1..];
    }
  }

  /** Two increasing lists with the same elements start alike: each head
      comes no later than every element of the other list. */
  lemma HeadsAgree(ps: seq<Pos>, qs: seq<Pos>)
    requires Increasing(ps) && Increasing(qs) && |ps| > 0 && |qs| > 0
    requires forall p :: p in ps <==> p in qs
    ensures ps[0] == qs[0]
  {
    assert ps[0] in qs && qs[0] in ps;
    assert forall k :: 0 < k < |ps| ==> Before(ps[0], ps[k]);
    assert forall k :: 0 < k < |qs| ==> Before(qs[0], qs[k]);
  }

  /** After a shared head, the tails of two increasing lists with the same
      elements have the same elements. */
  lemma TailsAgree(ps: seq<Pos>, qs: seq<Pos>)
    requires Increasing(ps) && Increasing(qs) && |ps| > 0 && |qs| > 0 && ps[0] == qs[0]
    requires forall p :: p in ps <==> p in qs
    ensures Increasing(ps[1..]) && Increasing(qs[1..])
    ensures forall p :: p in ps[1..] <==> p in qs[1..]
  {
    forall p ensures p in ps[1..] <==> p in qs[1..] {
      if p in ps[1..] {
        var a :| 0 <= a < |ps| - 1 && ps[1..][a] == p;
        assert Before(ps[0], ps[a + 1]) && ps[a + 1] in ps;
        var c :| 0 <= c < |qs| && qs[c] == p;
        assert c != 0;
        assert qs[1..][c - 1] == p;
      }
      if p in qs[1..] {
        var b :| 0 <= b < |qs| - 1 && qs[1..][b] == p;
        assert Before(qs[0], qs[b + 1]) && qs[b + 1] in qs;
        var c :| 0 <= c < |ps| && ps[c] == p;
        assert c != 0;
        assert ps[1..][c - 1] == p;
      }
    }
  }

  /** The cells of a w-by-w grid that satisfy keep, in the engine's nested
      `for i … for j …` order. */
  function RowMajor(w: nat, keep: Pos -> bool): (ps: seq<Pos>)
    ensures forall p :: p in ps <==> p.y < w && p.x < w && keep(p)
    ensures Increasing(ps)
  {
    RowsFrom(w, keep, 0)
  }

  function RowsFrom(w: nat, keep: Pos -> bool, i: nat): (ps: seq<Pos>)
    ensures forall p :: p in ps <==> i <= p.y < w && p.x < w && keep(p)
    ensures forall k :: 0 <= k < |ps| ==> ps[k].y >= i
    ensures Increasing(ps)
    decreases w - i
  {
    if i >= w then []
    else
      var row := ColsFrom(w, keep, i, 0);
      var rest := RowsFrom(w, keep, i + 1);
      RowThenRest(row, rest, i);
      row + rest
  }

  /** A row's cells followed by the cells of later rows stay in row-major order. */
  lemma RowThenRest(row: seq<Pos>, rest: seq<Pos>, i: nat)
    requires Increasing(row) && Increasing(rest)
    requires forall k :: 0 <= k < |row| ==> row[k].y == i
    requires forall k :: 0 <= k < |rest| ==> rest[k].y > i
    ensures Increasing(row + rest)
    ensures forall k :: 0 <= k < |row + rest| ==> (row + rest)[k].y >= i
  {
    var ps := row + rest;
    forall a, b | 0 <= a < b < |ps| ensures Before(ps[a], ps[b]) {
      if b < |row| {
        assert ps[a] == row[a] && ps[b] == row[b];
      } else if a >= |row| {
        assert ps[a] == rest[a - |row|] && ps[b] == rest[b - |row|];
      } else {
        assert ps[a] == row[a] && ps[b] == rest[b - |row|];
      }
    }
  }

  function ColsFrom(w: nat, keep: Pos -> bool, i: nat, j: nat): (ps: seq<Pos>)
    ensures forall p :: p in ps <==> p.y == i && j <= p.x < w && keep(p)
    ensures forall k :: 0 <= k < |ps| ==> ps[k].y == i && ps[k].x >= j
    ensures Increasing(ps)
    decreases w - j
  {
    if j >= w then []
    else if keep(Pos(j, i)) then [Pos(j, i)] + ColsFrom(w, keep, i, j + 1)
    else ColsFrom(w, keep, i, j + 1)
  }

  /** Two w-by-w grids that agree on every cell are equal. */
  lemma GridsEqual(g: Grid, h: Grid, w: nat)
    requires Square(g, w) && Square(h, w)
    requires forall p :: InGrid(g, p) ==> At(g, p) == At(h, p)
    ensures g == h
  {
    forall i | 0 <= i < w ensures g[i] == h[i] {
      forall j | 0 <= j < w ensures g[i][j] == h[i][j] {
        assert At(g, Pos(j, i)) == At(h, Pos(j, i));
      }
    }
  }
}
