/** A 4-by-4 puzzle (box size 2, alphabet "1234") on which the search loop of
    `solve` as written never ends, while the corrected step reports it
    unsolvable and restores the grid.

        3 _ 2 1
        1 2 3 4
        4 _ 1 3
        _ 3 4 2

    The given cells are conflict-free. The first free cell (1, 0) only takes
    '4', the last symbol. The second free cell (1, 2) takes nothing: its row
    holds 1, 3 and 4 and its column holds 2. */
module Livelock {
  import opened Grids
  import opened Validity
  import opened Sessions
  import opened Solver

  const Alphabet: seq<char> := "1234"

  const ExampleStart: Grid := [
    [Sym('3'), Blank, Sym('2'), Sym('1')],
    [Sym('1'), Sym('2'), Sym('3'), Sym('4')],
    [Sym('4'), Blank, Sym('1'), Sym('3')],
    [Blank, Sym('3'), Sym('4'), Sym('2')]]

  /** The start grid with '4' in the first free cell. */
  const ExampleFilled: Grid := [
    [Sym('3'), Sym('4'), Sym('2'), Sym('1')],
    [Sym('1'), Sym('2'), Sym('3'), Sym('4')],
    [Sym('4'), Blank, Sym('1'), Sym('3')],
    [Blank, Sym('3'), Sym('4'), Sym('2')]]

  const ExampleFixed: Mask := [
    [true, false, true, true],
    [true, true, true, true],
    [true, false, true, true],
    [false, true, true, true]]

  const CellA: Pos := Pos(1, 0)
  const CellB: Pos := Pos(1, 2)
  const CellC: Pos := Pos(0, 3)

  /** The puzzle `solve` builds for the example (see `ExampleFreeCells`). */
  function ExamplePuzzle(): Puzzle
  {
    Puzzle(2, Alphabet, ExampleFixed, ExampleStart, [CellA, CellB, CellC])
  }

  /** A 4-by-4 index is one of 0 .. 3. */
  lemma SmallIndex(x: nat)
    requires x < 4
    ensures x == 0 || x == 1 || x == 2 || x == 3
  {
  }

  /** The non-fixed cells of the example are A, B and C. */
  lemma FreeMask(p: Pos)
    ensures InGrid(ExampleFixed, p) && !MaskAt(ExampleFixed, p) <==> p == CellA || p == CellB || p == CellC
  {
    if InGrid(ExampleFixed, p) {
      SmallIndex(p.x);
      SmallIndex(p.y);
    }
  }

  /** The only increasing list of the non-fixed cells is A, B, C. */
  lemma ListedIsFree(free: seq<Pos>)
    requires Increasing(free)
    requires forall p :: p in free <==> p.x < 4 && p.y < 4 && InGrid(ExampleFixed, p) && !MaskAt(ExampleFixed, p)
    ensures free == [CellA, CellB, CellC]
  {
    var listed := [CellA, CellB, CellC];
    assert Increasing(listed) by {
      forall a, b | 0 <= a < b < 3 ensures Before(listed[a], listed[b]) {
        assert a == 0 || a == 1;
        assert b == 1 || b == 2;
      }
    }
    forall p ensures p in free <==> p in listed {
      FreeMask(p);
    }
    IncreasingDetermined(free, listed);
  }

  /** `find_free_cells` on the example gives A, B and C, in that order. */
  lemma ExampleFreeCells()
    ensures FindFreeCells(ExampleFixed, 2) == ExamplePuzzle().free
  {
    ListedIsFree(FindFreeCells(ExampleFixed, 2));
  }

  lemma ExamplePuzzleValid(z: Puzzle)
    requires z == ExamplePuzzle()
    ensures ValidPuzzle(z)
  {
    forall p | InGrid(z.start, p) && !MaskAt(z.fixed, p) ensures p in z.free {
      FreeMask(p);
    }
    forall i | 0 <= i < 3 ensures InGrid(z.start, z.free[i]) && !MaskAt(z.fixed, z.free[i]) && At(z.start, z.free[i]) == Blank {
      FreeMask(z.free[i]);
      assert i == 0 || i == 1 || i == 2;
    }
    assert Increasing(z.free) by {
      forall a, b | 0 <= a < b < 3 ensures Before(z.free[a], z.free[b]) {
        assert a == 0 || a == 1;
        assert b == 1 || b == 2;
      }
    }
  }

  /** Two cells of one region clash when both hold the same alphabet symbol. */
  predicate Clash(c: Cell, d: Cell)
  {
    IsSymbolIn(c, Alphabet) && c == d
  }

  /** A region of a 4-by-4 grid whose four cells are listed is valid when no
      two of them clash. */
  lemma RegionValidOfFour(g: Grid, r: Region, a: Pos, b: Pos, c: Pos, d: Pos)
    requires InGrid(g, a) && InGrid(g, b) && InGrid(g, c) && InGrid(g, d)
    requires forall p :: InGrid(g, p) && InRegion(2, r, p) ==> p == a || p == b || p == c || p == d
    requires !Clash(At(g, a), At(g, b)) && !Clash(At(g, a), At(g, c)) && !Clash(At(g, a), At(g, d))
    requires !Clash(At(g, b), At(g, c)) && !Clash(At(g, b), At(g, d)) && !Clash(At(g, c), At(g, d))
    ensures RegionValid(g, Alphabet, 2, r)
  {
  }

  /** '4' in cell A passes the row, column and box checks. */
  lemma FourFitsA()
    ensures ExampleFilled == Write(ExampleStart, CellA, Sym('4'))
    ensures Accepts(ExampleStart, Alphabet, 2, CellA, '4')
  {
    FilledIsWrite();
    FilledRowZero();
    FilledColumnOne();
    FilledBoxZero();
  }

  lemma FilledIsWrite()
    ensures Square(ExampleStart, 4) && ExampleFilled == Write(ExampleStart, CellA, Sym('4'))
  {
    assert ExampleFilled[0] == ExampleStart[0][1 := Sym('4')];
    assert ExampleFilled == ExampleStart[0 := ExampleFilled[0]];
  }

  /** Every cell of the filled grid has coordinates below 4. */
  lemma FilledSmall()
    ensures forall p :: InGrid(ExampleFilled, p) ==> p.x < 4 && p.y < 4
  {
  }

  lemma FilledRowZero()
    ensures RegionValid(ExampleFilled, Alphabet, 2, Row(0))
  {
    FilledSmall();
    RegionValidOfFour(ExampleFilled, Row(0), Pos(0, 0), Pos(1, 0), Pos(2, 0), Pos(3, 0));
  }

  lemma FilledColumnOne()
    ensures RegionValid(ExampleFilled, Alphabet, 2, Column(1))
  {
    FilledSmall();
    RegionValidOfFour(ExampleFilled, Column(1), Pos(1, 0), Pos(1, 1), Pos(1, 2), Pos(1, 3));
  }

  lemma FilledBoxZero()
    ensures RegionValid(ExampleFilled, Alphabet, 2, Box(0, 0))
  {
    FilledSmall();
    RegionValidOfFour(ExampleFilled, Box(0, 0), Pos(0, 0), Pos(1, 0), Pos(0, 1), Pos(1, 1));
  }

  /** Cell c of region r clashes with cell d of it. */
  lemma ClashBreaks(g: Grid, r: Region, c: Pos, d: Pos)
    requires InGrid(g, c) && InGrid(g, d) && c != d
    requires InRegion(2, r, c) && InRegion(2, r, d) && Clash(At(g, c), At(g, d))
    ensures !RegionValid(g, Alphabet, 2, r)
  {
  }

  /** Candidate ch at p is rejected when another cell d of one of p's regions
      already holds ch. */
  lemma RejectedBy(g: Grid, p: Pos, d: Pos, r: Region, ch: char)
    requires InGrid(g, p) && InGrid(g, d) && p != d
    requires r == Row(p.y) || r == Column(p.x) || r == BoxOf(2, p)
    requires InRegion(2, r, p) && InRegion(2, r, d)
    requires At(g, d) == Sym(ch) && ch in Alphabet
    ensures !Accepts(g, Alphabet, 2, p, ch)
  {
    ClashBreaks(Write(g, p, Sym(ch)), r, p, d);
  }

  /** '1', '2' and '3' in cell A repeat a symbol of row 0. */
  lemma OthersFailA()
    ensures !Accepts(ExampleStart, Alphabet, 2, CellA, '1')
    ensures !Accepts(ExampleStart, Alphabet, 2, CellA, '2')
    ensures !Accepts(ExampleStart, Alphabet, 2, CellA, '3')
  {
    RejectedBy(ExampleStart, CellA, Pos(3, 0), Row(0), '1');
    RejectedBy(ExampleStart, CellA, Pos(2, 0), Row(0), '2');
    RejectedBy(ExampleStart, CellA, Pos(0, 0), Row(0), '3');
  }

  /** No symbol fits cell B once A holds '4': '1', '3' and '4' repeat in row 2,
      '2' in column 1. */
  lemma NothingFitsB()
    ensures forall j :: 0 <= j < 4 ==> !Accepts(ExampleFilled, Alphabet, 2, CellB, Alphabet[j])
  {
    NothingFitsBRow();
    RejectedBy(ExampleFilled, CellB, Pos(1, 1), Column(1), '2');
    forall j | 0 <= j < 4 ensures !Accepts(ExampleFilled, Alphabet, 2, CellB, Alphabet[j]) {
      assert j == 0 || j == 1 || j == 2 || j == 3;
    }
  }

  lemma NothingFitsBRow()
    ensures !Accepts(ExampleFilled, Alphabet, 2, CellB, '1')
    ensures !Accepts(ExampleFilled, Alphabet, 2, CellB, '3')
    ensures !Accepts(ExampleFilled, Alphabet, 2, CellB, '4')
  {
    RejectedBy(ExampleFilled, CellB, Pos(2, 2), Row(2), '1');
    RejectedBy(ExampleFilled, CellB, Pos(3, 2), Row(2), '3');
    RejectedBy(ExampleFilled, CellB, Pos(0, 2), Row(2), '4');
  }

  /** A candidate loop over four symbols from the first, where only the last
      is accepted, places the last. */
  lemma PickedLast(g: Grid, symbols: seq<char>, n: nat, p: Pos, a: Attempt)
    requires InGrid(g, p) && |symbols| == 4
    requires FirstAccepted(g, symbols, n, p, 0, a)
    requires !Accepts(g, symbols, n, p, symbols[0]) && !Accepts(g, symbols, n, p, symbols[1])
    requires !Accepts(g, symbols, n, p, symbols[2]) && Accepts(g, symbols, n, p, symbols[3])
    ensures a == Placed(Write(g, p, Sym(symbols[3])), 3)
  {
    assert a.Placed?;
    assert a.k != 0 && a.k != 1 && a.k != 2;
  }

  /** The candidate loop over four symbols, where only the last is accepted,
      places the last. */
  lemma LoopPlacesLast(g: Grid, symbols: seq<char>, n: nat, p: Pos)
    requires Square(g, n * n) && InGrid(g, p) && |symbols| == 4
    requires !Accepts(g, symbols, n, p, symbols[0]) && !Accepts(g, symbols, n, p, symbols[1])
    requires !Accepts(g, symbols, n, p, symbols[2]) && Accepts(g, symbols, n, p, symbols[3])
    ensures TryCandidates(g, symbols, n, p, 0) == Placed(Write(g, p, Sym(symbols[3])), 3)
  {
    PickedLast(g, symbols, n, p, TryCandidates(g, symbols, n, p, 0));
  }

  /** A candidate loop from the first symbol where nothing is accepted
      leaves p blank. */
  lemma NoneAccepted(g: Grid, symbols: seq<char>, n: nat, p: Pos, a: Attempt)
    requires InGrid(g, p) && 0 < |symbols|
    requires FirstAccepted(g, symbols, n, p, 0, a)
    requires forall j :: 0 <= j < |symbols| ==> !Accepts(g, symbols, n, p, symbols[j])
    ensures a == Exhausted(Write(g, p, Blank))
  {
    assert !a.Placed?;
  }

  /** First pass: A, tried from the first symbol, takes '4'. */
  lemma FirstLoop(z: Puzzle)
    requires z == ExamplePuzzle()
    ensures ValidPuzzle(z)
    ensures TryCandidates(z.start, z.symbols, z.n, z.free[0], 0) == Placed(ExampleFilled, 3)
  {
    ExamplePuzzleValid(z);
    FourFitsA();
    OthersFailA();
    assert z.start == ExampleStart && z.symbols == Alphabet && z.n == 2 && z.free[0] == CellA;
    assert Alphabet[0] == '1' && Alphabet[1] == '2' && Alphabet[2] == '3' && Alphabet[3] == '4';
    LoopPlacesLast(z.start, z.symbols, z.n, z.free[0]);
  }

  /** Second pass: B, tried from the first symbol, finds nothing. */
  lemma SecondLoop(z: Puzzle)
    requires z == ExamplePuzzle()
    ensures ValidPuzzle(z) && Square(ExampleFilled, 4)
    ensures TryCandidates(ExampleFilled, z.symbols, z.n, z.free[1], 0) == Exhausted(ExampleFilled)
  {
    ExamplePuzzleValid(z);
    BlankingBKeepsFilled();
    NothingFitsB();
    assert z.symbols == Alphabet && z.n == 2 && z.free[1] == CellB;
    NoneAccepted(ExampleFilled, z.symbols, z.n, z.free[1], TryCandidates(ExampleFilled, z.symbols, z.n, z.free[1], 0));
  }

  /** B is blank in the filled grid, so blanking it changes nothing. */
  lemma BlankingBKeepsFilled()
    ensures Square(ExampleFilled, 4) && Write(ExampleFilled, CellB, Blank) == ExampleFilled
  {
    assert ExampleFilled[2][1 := Blank] == ExampleFilled[2];
  }

  /** Third pass: A, resumed after the last symbol, runs no iteration. */
  lemma ThirdLoop(z: Puzzle)
    requires z == ExamplePuzzle()
    ensures ValidPuzzle(z) && Square(ExampleFilled, 4)
    ensures TryCandidates(ExampleFilled, z.symbols, z.n, z.free[0], 4) == Exhausted(ExampleFilled)
  {
    ExamplePuzzleValid(z);
    FourFitsA();
  }

  /** The state after the first pass: A holds '4' and the search is at B. */
  function AfterFirst(): Search
  {
    Search(ExampleFilled, 1, [4, 0, 0], CellA)
  }

  /** The state after the second pass: B found nothing and the search is back at A. */
  function AfterSecond(): Search
  {
    Search(ExampleFilled, 0, [4, 0, 0], CellB)
  }

  /** The first pass on any three-cell puzzle whose first free cell takes
      the fourth symbol (stated without the example's grids, so that the
      candidate loop is not evaluated on them). */
  lemma FirstPassFrom(z: Puzzle, cursor: Pos, g1: Grid)
    requires ValidPuzzle(z) && |z.free| == 3
    requires TryCandidates(z.start, z.symbols, z.n, z.free[0], 0) == Placed(g1, 3)
    ensures Step(z, Initial(z, cursor)) == Search(g1, 1, [4, 0, 0], z.free[0])
    ensures Inv(z, Search(g1, 1, [4, 0, 0], z.free[0]))
  {
    var st0 := Initial(z, cursor);
    assert InGrid(z.start, z.free[0]);
    assert st0.grid == z.start && st0.index == 0 && st0.resume[0] == 0;
    ResumeAfterFirst(st0.resume);
    StepWhenPlaced(z, st0, g1, 3);
  }

  /** Recording the fourth symbol in the first of three untried entries. */
  lemma ResumeAfterFirst(resume: seq<nat>)
    requires |resume| == 3 && forall i :: 0 <= i < 3 ==> resume[i] == 0
    ensures resume[0 := 4] == [4, 0, 0]
  {
  }

  /** The second pass, when the second free cell takes nothing and is blank. */
  lemma SecondPassFrom(z: Puzzle, g1: Grid, c1: Pos)
    requires ValidPuzzle(z) && |z.free| == 3
    requires Inv(z, Search(g1, 1, [4, 0, 0], c1))
    requires TryCandidates(g1, z.symbols, z.n, z.free[1], 0) == Exhausted(g1)
    requires Write(g1, z.free[1], Blank) == g1
    ensures Step(z, Search(g1, 1, [4, 0, 0], c1)) == Search(g1, 0, [4, 0, 0], z.free[1])
    ensures Inv(z, Search(g1, 0, [4, 0, 0], z.free[1]))
  {
    var st := Search(g1, 1, [4, 0, 0], c1);
    assert [4, 0, 0][1 := 0] == [4, 0, 0];
    StepWhenExhausted(z, st, g1);
  }

  /** The third pass of the corrected step, when the first free cell has run
      through the alphabet: the cell is blanked and the search leaves the list. */
  lemma ThirdPassFrom(z: Puzzle, g1: Grid, c2: Pos)
    requires ValidPuzzle(z) && |z.free| == 3 && |z.symbols| == 4
    requires Inv(z, Search(g1, 0, [4, 0, 0], c2))
    requires TryCandidates(g1, z.symbols, z.n, z.free[0], 4) == Exhausted(g1)
    ensures Step(z, Search(g1, 0, [4, 0, 0], c2)) == Search(Write(g1, z.free[0], Blank), -1, [0, 0, 0], z.free[0])
  {
    var st := Search(g1, 0, [4, 0, 0], c2);
    assert [4, 0, 0][0 := 0] == [0, 0, 0];
    StepWhenExhausted(z, st, g1);
  }

  /** The first pass places '4' in A. */
  lemma FirstPass(z: Puzzle, cursor: Pos)
    requires z == ExamplePuzzle()
    ensures ValidPuzzle(z)
    ensures Step(z, Initial(z, cursor)) == AfterFirst()
    ensures Inv(z, AfterFirst())
  {
    FirstLoop(z);
    FirstPassFrom(z, cursor, ExampleFilled);
  }

  /** The second pass finds nothing for B and steps back to A. */
  lemma SecondPass(z: Puzzle, cursor: Pos)
    requires z == ExamplePuzzle()
    ensures ValidPuzzle(z) && Inv(z, AfterFirst())
    ensures Step(z, AfterFirst()) == AfterSecond()
    ensures Inv(z, AfterSecond())
  {
    FirstPass(z, cursor);
    SecondLoop(z);
    BlankingBKeepsFilled();
    SecondPassFrom(z, ExampleFilled, CellA);
  }

  /** The first two passes, which both versions of the loop share. */
  lemma SharedPasses(z: Puzzle, cursor: Pos)
    requires z == ExamplePuzzle()
    ensures ValidPuzzle(z)
    ensures Step(z, Initial(z, cursor)) == AfterFirst()
    ensures Inv(z, AfterFirst())
    ensures Step(z, AfterFirst()) == AfterSecond()
    ensures Inv(z, AfterSecond())
  {
    FirstPass(z, cursor);
    SecondPass(z, cursor);
  }

  /** Finding: in the loop as written, the third pass undoes the second. A
      still holds '4' and its last-tried entry points at the last symbol, so
      the candidate loop runs no iteration, the cell is not blank, and the
      search steps forward to B again. From the second pass on the loop
      alternates between two states whose index lies inside the free-cell
      list, so it never exits. */
  lemma AsWrittenSolveCycles(z: Puzzle, cursor: Pos)
    requires z == ExamplePuzzle()
    ensures ValidPuzzle(z)
    ensures SearchShape(z, AfterFirst()) && SearchShape(z, AfterSecond())
    ensures StepAsWritten(z, Initial(z, cursor)) == AfterFirst()
    ensures StepAsWritten(z, AfterFirst()) == AfterSecond()
    ensures StepAsWritten(z, AfterSecond()) == AfterFirst()
    ensures 0 <= AfterFirst().index < |z.free| && 0 <= AfterSecond().index < |z.free|
  {
    SharedPasses(z, cursor);
    ThirdLoop(z);
    StepsAgree(z, Initial(z, cursor));
    StepsAgree(z, AfterFirst());
  }

  /** The corrected step blanks A on the third pass and steps back past the
      first free cell, so `Solve` stops with the puzzle unsolvable and the
      grid as it started. */
  lemma CorrectedSolveStops(z: Puzzle, cursor: Pos)
    requires z == ExamplePuzzle()
    ensures ValidPuzzle(z) && Inv(z, AfterSecond())
    ensures Step(z, AfterSecond()) == Search(z.start, -1, [0, 0, 0], CellA)
  {
    SharedPasses(z, cursor);
    ThirdLoop(z);
    ThirdPassFrom(z, ExampleFilled, CellB);
    BlankingAGivesStart();
  }

  /** Blanking A in the filled grid gives back the start grid. */
  lemma BlankingAGivesStart()
    ensures Square(ExampleFilled, 4) && Write(ExampleFilled, CellA, Blank) == ExampleStart
  {
    assert ExampleFilled[0][1 := Blank] == ExampleStart[0];
    assert ExampleFilled[0 := ExampleStart[0]] == ExampleStart;
  }
}
