/** Validity checking: the per-region duplicate scans (`check_row_validity`,
    `check_column_validity`, `check_box_validity`) and the full rebuild of the
    conflict mask (`find_matching_*`, `get_invalid_coords_for_cell`,
    `check_grid_validity`). */
module Validity {
  import opened Grids

  /** A matrix of flags parallel to the grid. */
  type Mask = seq<seq<bool>>

  /** The cells of region r in the order the engine's loops visit them. */
  function RegionCells(n: nat, r: Region): (ps: seq<Pos>)
    ensures forall p :: p in ps <==> p.y < n * n && p.x < n * n && InRegion(n, r, p)
    ensures Increasing(ps)
  {
    RowMajor(n * n, p => InRegion(n, r, p))
  }

  /** No alphabet symbol sits at two of the listed cells. */
  ghost predicate NoRepeatAt(g: Grid, symbols: seq<char>, ps: seq<Pos>)
    requires forall k :: 0 <= k < |ps| ==> InGrid(g, ps[k])
  {
    forall a, b :: 0 <= a < b < |ps| && IsSymbolIn(At(g, ps[a]), symbols) ==> At(g, ps[a]) != At(g, ps[b])
  }

  /** No alphabet symbol at the listed cells is already in `used`. */
  ghost predicate AllUnused(g: Grid, symbols: seq<char>, ps: seq<Pos>, used: set<char>)
    requires forall k :: 0 <= k < |ps| ==> InGrid(g, ps[k])
  {
    forall k :: 0 <= k < |ps| && IsSymbolIn(At(g, ps[k]), symbols) ==> At(g, ps[k]).c !in used
  }

  /** The `used_symbols` loop shared by the three checks: it answers false at
      the first alphabet symbol met a second time, and true at the end. */
  function ScanForRepeat(g: Grid, symbols: seq<char>, ps: seq<Pos>, used: set<char>): (ok: bool)
    requires forall k :: 0 <= k < |ps| ==> InGrid(g, ps[k])
    ensures ok <==> NoRepeatAt(g, symbols, ps) && AllUnused(g, symbols, ps, used)
    decreases |ps|
  {
    if |ps| == 0 then true
    else
      var cell := At(g, ps[0]);
      var rest := ps[1..];
      assert forall k :: 0 <= k < |rest| ==> rest[k] == ps[k + 1];
      if IsSymbolIn(cell, symbols) then
        if cell.c in used then false
        else ScanForRepeat(g, symbols, rest, used + {cell.c})
      else ScanForRepeat(g, symbols, rest, used)
  }

  /** Scanning a region's cells finds a repeat exactly when the region is not valid. */
  function CheckRegion(g: Grid, symbols: seq<char>, n: nat, r: Region): (ok: bool)
    requires Square(g, n * n)
    ensures ok <==> RegionValid(g, symbols, n, r)
  {
    var ps := RegionCells(n, r);
    RegionCellsInGrid(g, n, r);
    NoRepeatIffRegionValid(g, symbols, n, r);
    ScanForRepeat(g, symbols, ps, {})
  }

  lemma RegionCellsInGrid(g: Grid, n: nat, r: Region)
    requires Square(g, n * n)
    ensures forall k :: 0 <= k < |RegionCells(n, r)| ==> InGrid(g, RegionCells(n, r)[k])
  {
    var ps := RegionCells(n, r);
    assert forall k :: 0 <= k < |ps| ==> ps[k] in ps;
  }

  lemma NoRepeatIffRegionValid(g: Grid, symbols: seq<char>, n: nat, r: Region)
    requires Square(g, n * n)
    ensures forall k :: 0 <= k < |RegionCells(n, r)| ==> InGrid(g, RegionCells(n, r)[k])
    ensures NoRepeatAt(g, symbols, RegionCells(n, r)) <==> RegionValid(g, symbols, n, r)
  {
    RegionCellsInGrid(g, n, r);
    if NoRepeatAt(g, symbols, RegionCells(n, r)) {
      NoRepeatGivesValid(g, symbols, n, r);
    }
    if RegionValid(g, symbols, n, r) {
      ValidGivesNoRepeat(g, symbols, n, r);
    }
  }

  /** No repeat along the region's cells: no two of its cells clash. */
  lemma NoRepeatGivesValid(g: Grid, symbols: seq<char>, n: nat, r: Region)
    requires Square(g, n * n)
    requires forall k :: 0 <= k < |RegionCells(n, r)| ==> InGrid(g, RegionCells(n, r)[k])
    requires NoRepeatAt(g, symbols, RegionCells(n, r))
    ensures RegionValid(g, symbols, n, r)
  {
    var ps := RegionCells(n, r);
    forall p, q | InGrid(g, p) && InGrid(g, q) && InRegion(n, r, p) && InRegion(n, r, q) && p != q
      && IsSymbolIn(At(g, p), symbols)
      ensures At(g, p) != At(g, q)
    {
      assert p in ps && q in ps;
      var a :| 0 <= a < |ps| && ps[a] == p;
      var b :| 0 <= b < |ps| && ps[b] == q;
      NoRepeatPair(g, symbols, ps, a, b);
    }
  }

  /** With no repeat along the list, the cells at two different indices never
      hold the same alphabet symbol, whichever comes first. */
  lemma NoRepeatPair(g: Grid, symbols: seq<char>, ps: seq<Pos>, a: nat, b: nat)
    requires forall k :: 0 <= k < |ps| ==> InGrid(g, ps[k])
    requires NoRepeatAt(g, symbols, ps)
    requires a < |ps| && b < |ps| && a != b && IsSymbolIn(At(g, ps[a]), symbols)
    ensures At(g, ps[a]) != At(g, ps[b])
  {
    if a > b && IsSymbolIn(At(g, ps[b]), symbols) {
      assert At(g, ps[b]) != At(g, ps[a]);
    }
  }

  /** A valid region has no repeat along its cells. */
  lemma ValidGivesNoRepeat(g: Grid, symbols: seq<char>, n: nat, r: Region)
    requires Square(g, n * n)
    requires forall k :: 0 <= k < |RegionCells(n, r)| ==> InGrid(g, RegionCells(n, r)[k])
    requires RegionValid(g, symbols, n, r)
    ensures NoRepeatAt(g, symbols, RegionCells(n, r))
  {
    var ps := RegionCells(n, r);
    forall a, b | 0 <= a < b < |ps| && IsSymbolIn(At(g, ps[a]), symbols)
      ensures At(g, ps[a]) != At(g, ps[b])
    {
      assert Before(ps[a], ps[b]);
      assert ps[a] in ps && ps[b] in ps;
    }
  }

  /** `check_row_validity(y)`. */
  function CheckRowValidity(g: Grid, symbols: seq<char>, n: nat, y: nat): (ok: bool)
    requires Square(g, n * n) && y < n * n
    ensures ok <==> RegionValid(g, symbols, n, Row(y))
  {
    CheckRegion(g, symbols, n, Row(y))
  }

  /** `check_column_validity(x)`. */
  function CheckColumnValidity(g: Grid, symbols: seq<char>, n: nat, x: nat): (ok: bool)
    requires Square(g, n * n) && x < n * n
    ensures ok <==> RegionValid(g, symbols, n, Column(x))
  {
    CheckRegion(g, symbols, n, Column(x))
  }

  /** `check_box_validity(x, y)`: the box of the cells i, j with
      i / n == y / n and j / n == x / n. */
  function CheckBoxValidity(g: Grid, symbols: seq<char>, n: nat, x: nat, y: nat): (ok: bool)
    requires Square(g, n * n) && n > 0
    ensures ok <==> RegionValid(g, symbols, n, BoxOf(n, Pos(x, y)))
  {
    CheckRegion(g, symbols, n, BoxOf(n, Pos(x, y)))
  }

  /** `find_matching_in_row(x, y)`: the other cells of row y equal to the non-blank cell (x, y). */
  function FindMatchingInRow(g: Grid, n: nat, x: nat, y: nat): (ms: set<Pos>)
    requires Square(g, n * n) && InGrid(g, Pos(x, y))
    ensures forall q :: q in ms <==> InGrid(g, q) && q.y == y && Conflict(g, n, Pos(x, y), q)
  {
    set j | 0 <= j < |g[y]| && j != x && g[y][j] == g[y][x] && g[y][x] != Blank :: Pos(j, y)
  }

  /** `find_matching_in_column(x, y)`. */
  function FindMatchingInColumn(g: Grid, n: nat, x: nat, y: nat): (ms: set<Pos>)
    requires Square(g, n * n) && InGrid(g, Pos(x, y))
    ensures forall q :: q in ms <==> InGrid(g, q) && q.x == x && Conflict(g, n, Pos(x, y), q)
  {
    set i | 0 <= i < |g| && i != y && g[i][x] == g[y][x] && g[y][x] != Blank :: Pos(x, i)
  }

  /** `find_matching_in_box(x, y)`: the loop over every cell, filtered by the box test. */
  function FindMatchingInBox(g: Grid, n: nat, x: nat, y: nat): (ms: set<Pos>)
    requires Square(g, n * n) && InGrid(g, Pos(x, y))
    ensures forall q :: q in ms <==>
      InGrid(g, q) && n > 0 && q.y / n == y / n && q.x / n == x / n && Conflict(g, n, Pos(x, y), q)
  {
    set i, j | 0 <= i < |g| && 0 <= j < |g[i]| && n > 0 && i / n == y / n && j / n == x / n
      && !(i == y && j == x) && g[i][j] == g[y][x] && g[y][x] != Blank :: Pos(j, i)
  }

  /** The three `find_matching_*` results together: exactly the cells in
      conflict with (x, y), empty exactly when (x, y) has no conflict. */
  function Partners(g: Grid, n: nat, x: nat, y: nat): (cs: set<Pos>)
    requires Square(g, n * n) && InGrid(g, Pos(x, y))
    ensures forall q :: q in cs <==> InGrid(g, q) && Conflict(g, n, Pos(x, y), q)
    ensures |cs| > 0 <==> HasConflict(g, n, Pos(x, y))
  {
    var p := Pos(x, y);
    var cs := FindMatchingInRow(g, n, x, y) + FindMatchingInColumn(g, n, x, y) + FindMatchingInBox(g, n, x, y);
    assert forall q :: InGrid(g, q) && Conflict(g, n, p, q) ==> q in cs;
    PartnersNonEmpty(g, n, p, cs);
    cs
  }

  /** A set holding exactly p's conflict partners is non-empty exactly when p has a conflict. */
  lemma PartnersNonEmpty(g: Grid, n: nat, p: Pos, cs: set<Pos>)
    requires InGrid(g, p)
    requires forall q :: q in cs <==> InGrid(g, q) && Conflict(g, n, p, q)
    ensures |cs| > 0 <==> HasConflict(g, n, p)
  {
    if HasConflict(g, n, p) {
      var q :| InGrid(g, q) && Conflict(g, n, p, q);
      assert q in cs;
    }
    if |cs| > 0 {
      var q :| q in cs;
      assert InGrid(g, q) && Conflict(g, n, p, q);
    }
  }

  /** `get_invalid_coords_for_cell(x, y)`: the matching partners of (x, y),
      plus (x, y) itself when it has any. */
  function InvalidCoordsForCell(g: Grid, n: nat, x: nat, y: nat): (cs: set<Pos>)
    requires Square(g, n * n) && InGrid(g, Pos(x, y))
    ensures forall q :: q in cs <==>
      (q == Pos(x, y) && HasConflict(g, n, q)) || (InGrid(g, q) && Conflict(g, n, Pos(x, y), q))
  {
    var cs := Partners(g, n, x, y);
    WithSelf(g, n, Pos(x, y), cs);
    if |cs| > 0 then cs + {Pos(x, y)} else cs
  }

  /** Adding p to its partners exactly when it has one gives p's invalid coordinates. */
  lemma WithSelf(g: Grid, n: nat, p: Pos, cs: set<Pos>)
    requires InGrid(g, p)
    requires forall q :: q in cs <==> InGrid(g, q) && Conflict(g, n, p, q)
    requires |cs| > 0 <==> HasConflict(g, n, p)
    ensures forall q :: q in (if |cs| > 0 then cs + {p} else cs) <==>
      (q == p && HasConflict(g, n, q)) || (InGrid(g, q) && Conflict(g, n, p, q))
  {
  }

  /** The outcome of `check_grid_validity`: the rebuilt `invalid_chars` and `grid_valid`. */
  datatype Validity = Validity(invalid: Mask, valid: bool)

  /** The union over all cells of their invalid coordinates. */
  function InvalidCoords(g: Grid, n: nat): set<Pos>
    requires Square(g, n * n)
  {
    set y, x, q | 0 <= y < |g| && 0 <= x < |g[y]| && q in InvalidCoordsForCell(g, n, x, y) :: q
  }

  lemma ConflictSymmetric(g: Grid, n: nat, p: Pos, q: Pos)
    requires InGrid(g, p) && InGrid(g, q)
    ensures Conflict(g, n, p, q) <==> Conflict(g, n, q, p)
  {
  }

  /** `check_grid_validity`: a cell is marked exactly when another cell in its
      row, column or box holds the same non-blank character, and the grid is
      valid exactly when nothing is marked. The mask is rebuilt from the grid
      alone, so no earlier mask survives into it. */
  function CheckGridValidity(g: Grid, n: nat): (v: Validity)
    requires Square(g, n * n)
    ensures |v.invalid| == n * n && forall i :: 0 <= i < n * n ==> |v.invalid[i]| == n * n
    ensures forall p :: InGrid(g, p) ==> (v.invalid[p.y][p.x] <==> HasConflict(g, n, p))
    ensures v.valid <==> NoConflict(g, n)
  {
    var coords := InvalidCoords(g, n);
    MaskOfInvalidCoords(g, n, coords);
    Validity(MaskOf(coords, n * n), |coords| == 0)
  }

  /** The mask of the invalid coordinates marks exactly the conflicting cells,
      and the set is empty exactly when nothing conflicts. */
  lemma MaskOfInvalidCoords(g: Grid, n: nat, coords: set<Pos>)
    requires Square(g, n * n) && coords == InvalidCoords(g, n)
    ensures forall p :: InGrid(g, p) ==> (MaskOf(coords, n * n)[p.y][p.x] <==> HasConflict(g, n, p))
    ensures |coords| == 0 <==> NoConflict(g, n)
  {
    InvalidCoordsMeaning(g, n);
    EmptyCoordsIffNoConflict(g, n);
  }

  /** A w-by-w mask marking exactly the given coordinates. */
  function MaskOf(coords: set<Pos>, w: nat): (m: Mask)
    ensures |m| == w && forall i :: 0 <= i < w ==> |m[i]| == w
    ensures forall p: Pos :: p.y < w && p.x < w ==> (m[p.y][p.x] <==> p in coords)
  {
    seq(w, y requires 0 <= y < w => seq(w, x requires 0 <= x < w => Pos(x, y) in coords))
  }

  lemma EmptyCoordsIffNoConflict(g: Grid, n: nat)
    requires Square(g, n * n)
    ensures |InvalidCoords(g, n)| == 0 <==> NoConflict(g, n)
  {
    InvalidCoordsMeaning(g, n);
    if !NoConflict(g, n) {
      var p, q :| InGrid(g, p) && InGrid(g, q) && Conflict(g, n, p, q);
      assert p in InvalidCoords(g, n);
    } else {
      assert InvalidCoords(g, n) == {};
    }
  }

  /** A cell is among the invalid coordinates exactly when it is in conflict with some cell. */
  lemma InvalidCoordsMeaning(g: Grid, n: nat)
    requires Square(g, n * n)
    ensures forall p :: p in InvalidCoords(g, n) <==> InGrid(g, p) && HasConflict(g, n, p)
  {
    InvalidCoordsSound(g, n);
    InvalidCoordsComplete(g, n);
  }

  /** Every invalid coordinate is a cell in conflict: either the cell checked
      or one of its partners, and conflict is symmetric. */
  lemma InvalidCoordsSound(g: Grid, n: nat)
    requires Square(g, n * n)
    ensures forall p :: p in InvalidCoords(g, n) ==> InGrid(g, p) && HasConflict(g, n, p)
  {
    forall p | p in InvalidCoords(g, n)
      ensures InGrid(g, p) && HasConflict(g, n, p)
    {
      var y, x :| 0 <= y < |g| && 0 <= x < |g[y]| && p in InvalidCoordsForCell(g, n, x, y);
      if p != Pos(x, y) {
        ConflictSymmetric(g, n, Pos(x, y), p);
        assert InGrid(g, Pos(x, y)) && Conflict(g, n, p, Pos(x, y));
      }
    }
  }

  /** Every cell in conflict is marked by its own check. */
  lemma InvalidCoordsComplete(g: Grid, n: nat)
    requires Square(g, n * n)
    ensures forall p :: InGrid(g, p) && HasConflict(g, n, p) ==> p in InvalidCoords(g, n)
  {
    forall p | InGrid(g, p) && HasConflict(g, n, p)
      ensures p in InvalidCoords(g, n)
    {
      assert p in InvalidCoordsForCell(g, n, p.x, p.y);
    }
  }

  /** On well-formed cells the rebuilt flag agrees with the three region checks
      over every row, column and box. */
  lemma GridValidIffAllChecksPass(g: Grid, symbols: seq<char>, n: nat)
    requires Square(g, n * n) && CellsWellFormed(g, symbols)
    ensures CheckGridValidity(g, n).valid <==> forall r :: IsRegion(n, r) ==> CheckRegion(g, symbols, n, r)
  {
    NoConflictIffRegionsValid(g, n, symbols);
  }
}
