/** Grid construction: the closed-form band pattern of `ordered_grid` and
    `randomize_grid`, and the random row/column swaps inside one band. The
    random choices (the shuffled alphabet and the swap list) are parameters. */
module Generation {
  import opened Arith
  import opened Grids

  /** The alphabet cut into n consecutive strands of n symbols each. */
  function Strands(symbols: seq<char>, n: nat): (strands: seq<seq<char>>)
    requires |symbols| == n * n
    ensures |strands| == n
    ensures forall s :: 0 <= s < n ==> |strands[s]| == n
    ensures forall s, k :: 0 <= s < n && 0 <= k < n ==> strands[s][k] == symbols[Join(n, s, k)]
  {
    seq(n, s requires 0 <= s < n => Strand(symbols, n, s))
  }

  /** Strand s: the slice symbols[s * n .. (s + 1) * n]. */
  function Strand(symbols: seq<char>, n: nat, s: nat): (strand: seq<char>)
    requires |symbols| == n * n && s < n
    ensures |strand| == n
    ensures forall k :: 0 <= k < n ==> strand[k] == symbols[Join(n, s, k)]
  {
    var start := s * n;
    assert start + n <= |symbols| by {
      MulMonotone(s + 1, n, n);
    }
    var strand := symbols[start .. start + n];
    assert forall k :: 0 <= k < n ==> Join(n, s, k) == start + k && strand[k] == symbols[start + k];
    strand
  }

  /** Which strand cell (i, j) draws from. */
  function StrandOf(n: nat, i: nat, j: nat): nat
    requires n > 0
  {
    (i % n + j / n) % n
  }

  /** The position inside that strand. */
  function OffsetOf(n: nat, i: nat, j: nat): nat
    requires n > 0
  {
    (i / n + j % n) % n
  }

  /** The index into the alphabet of the symbol the band pattern puts at row i, column j. */
  function BandIndex(n: nat, i: nat, j: nat): (t: nat)
    requires n > 0
    ensures t < n * n
  {
    Join(n, StrandOf(n, i, j), OffsetOf(n, i, j))
  }

  /** The band pattern over an alphabet of n * n symbols. */
  function BandGrid(n: nat, symbols: seq<char>): (g: Grid)
    requires |symbols| == n * n
    ensures Square(g, n * n)
    ensures forall p :: InGrid(g, p) ==> n > 0 && At(g, p) == Sym(symbols[BandIndex(n, p.y, p.x)])
  {
    var strands := Strands(symbols, n);
    seq(n * n, i requires 0 <= i < n * n =>
      seq(n * n, j requires 0 <= j < n * n => Sym(strands[StrandOf(n, i, j)][OffsetOf(n, i, j)])))
  }

  lemma BandGridAt(n: nat, symbols: seq<char>, p: Pos)
    requires |symbols| == n * n && InGrid(BandGrid(n, symbols), p)
    ensures n > 0
    ensures At(BandGrid(n, symbols), p) == Sym(symbols[BandIndex(n, p.y, p.x)])
  {
  }

  /** Within one region, the band pattern never uses the same alphabet index twice. */
  lemma BandIndexInjective(n: nat, r: Region, p: Pos, q: Pos)
    requires n > 0 && p.x < n * n && p.y < n * n && q.x < n * n && q.y < n * n
    requires InRegion(n, r, p) && InRegion(n, r, q)
    requires BandIndex(n, p.y, p.x) == BandIndex(n, q.y, q.x)
    ensures p == q
  {
    assert StrandOf(n, p.y, p.x) == StrandOf(n, q.y, q.x);
    assert OffsetOf(n, p.y, p.x) == OffsetOf(n, q.y, q.x);
    SplitIndex(n, p.x);
    SplitIndex(n, p.y);
    SplitIndex(n, q.x);
    SplitIndex(n, q.y);
    match r
    case Row(y) =>
      AddModInjective(n, p.x / n, q.x / n, y % n);
      AddModInjective(n, p.x % n, q.x % n, y / n);
    case Column(x) =>
      AddModInjective(n, p.y % n, q.y % n, x / n);
      AddModInjective(n, p.y / n, q.y / n, x % n);
    case Box(bx, bY) =>
      AddModInjective(n, p.y % n, q.y % n, bx);
      AddModInjective(n, p.x % n, q.x % n, bY);
  }

  /** Every alphabet index is used somewhere in every region. */
  lemma BandIndexReaches(n: nat, r: Region, t: nat) returns (p: Pos)
    requires n > 0 && IsRegion(n, r) && t < n * n
    ensures p.x < n * n && p.y < n * n && InRegion(n, r, p)
    ensures BandIndex(n, p.y, p.x) == t
  {
    SplitIndex(n, t);
    match r
    case Row(y) => p := ReachInRow(n, y, t / n, t % n);
    case Column(x) => p := ReachInColumn(n, x, t / n, t % n);
    case Box(bx, bY) => p := ReachInBox(n, bx, bY, t / n, t % n);
  }

  /** The band index from the quotients and remainders of the row and column. */
  lemma BandIndexFromDigits(n: nat, i: nat, j: nat, iq: nat, ir: nat, jq: nat, jr: nat)
    requires n > 0 && i / n == iq && i % n == ir && j / n == jq && j % n == jr
    ensures BandIndex(n, i, j) == Join(n, (ir + jq) % n, (iq + jr) % n)
  {
  }

  /** For residues u and v, the residues a and b with (u + a) % n == s and
      (v + b) % n == k. */
  lemma Complements(n: nat, u: nat, v: nat, s: nat, k: nat) returns (a: nat, b: nat)
    requires n > 0 && u < n && v < n && s < n && k < n
    ensures a < n && b < n && (u + a) % n == s && (v + b) % n == k
  {
    AddModInverse(n, u, s);
    AddModInverse(n, v, k);
    a, b := (s - u) % n, (k - v) % n;
  }

  lemma ReachInRow(n: nat, y: nat, s: nat, k: nat) returns (p: Pos)
    requires n > 0 && y < n * n && s < n && k < n
    ensures p.x < n * n && p.y == y
    ensures BandIndex(n, p.y, p.x) == Join(n, s, k)
  {
    SplitIndex(n, y);
    var a, b := Complements(n, y % n, y / n, s, k);
    JoinIndex(n, a, b);
    var x := a * n + b;
    BandIndexFromDigits(n, y, x, y / n, y % n, a, b);
    p := Pos(x, y);
  }

  lemma ReachInColumn(n: nat, x: nat, s: nat, k: nat) returns (p: Pos)
    requires n > 0 && x < n * n && s < n && k < n
    ensures p.y < n * n && p.x == x
    ensures BandIndex(n, p.y, p.x) == Join(n, s, k)
  {
    SplitIndex(n, x);
    var b, a := Complements(n, x / n, x % n, s, k);
    JoinIndex(n, a, b);
    var y := a * n + b;
    BandIndexFromDigits(n, y, x, a, b, x / n, x % n);
    p := Pos(x, y);
  }

  lemma ReachInBox(n: nat, bx: nat, bY: nat, s: nat, k: nat) returns (p: Pos)
    requires n > 0 && bx < n && bY < n && s < n && k < n
    ensures p.x < n * n && p.y < n * n && p.x / n == bx && p.y / n == bY
    ensures BandIndex(n, p.y, p.x) == Join(n, s, k)
  {
    var a, b := Complements(n, bx, bY, s, k);
    JoinIndex(n, bY, a);
    JoinIndex(n, bx, b);
    var x, y := bx * n + b, bY * n + a;
    BandIndexFromDigits(n, y, x, bY, a, bx, b);
    p := Pos(x, y);
  }

  /** The band pattern over distinct symbols is a solved puzzle: each symbol
      once in every row, every column and every box. */
  lemma BandGridIsSolution(n: nat, symbols: seq<char>)
    requires |symbols| == n * n && Distinct(symbols)
    ensures IsSolution(BandGrid(n, symbols), n, symbols)
  {
    var g := BandGrid(n, symbols);
    forall p | InGrid(g, p)
      ensures IsSymbolIn(At(g, p), symbols)
    {
      BandGridAt(n, symbols, p);
    }
    forall r, c | IsRegion(n, r) && c in symbols
      ensures ExactlyOnce(g, n, r, c)
    {
      var t :| 0 <= t < |symbols| && symbols[t] == c;
      assert n > 0;
      var p0 := BandIndexReaches(n, r, t);
      BandGridAt(n, symbols, p0);
      forall p, q | InGrid(g, p) && InGrid(g, q) && InRegion(n, r, p) && InRegion(n, r, q)
        && At(g, p) == Sym(c) && At(g, q) == Sym(c)
        ensures p == q
      {
        BandGridAt(n, symbols, p);
        BandGridAt(n, symbols, q);
        BandIndexInjective(n, r, p, q);
      }
    }
  }

  /** One random transformation of `randomize_grid`: swap rows (or columns)
      band * n + a and band * n + b. */
  datatype Swap = Swap(isRow: bool, a: nat, b: nat, band: nat)

  /** What `random.sample(range(n), 2)` and `random.choice(range(n))` can produce. */
  predicate ValidSwap(n: nat, s: Swap)
  {
    s.a < n && s.b < n && s.a != s.b && s.band < n
  }

  /** The index a swap of u and v sends k to. */
  function Swapped(k: nat, u: nat, v: nat): nat
  {
    if k == u then v else if k == v then u else k
  }

  function SwapRows(g: Grid, u: nat, v: nat): (r: Grid)
    requires u < |g| && v < |g|
  {
    seq(|g|, i requires 0 <= i < |g| => g[Swapped(i, u, v)])
  }

  function SwapColumns(g: Grid, u: nat, v: nat): (r: Grid)
    requires forall i :: 0 <= i < |g| ==> u < |g[i]| && v < |g[i]|
  {
    seq(|g|, i requires 0 <= i < |g| => seq(|g[i]|, j requires 0 <= j < |g[i]| => g[i][Swapped(j, u, v)]))
  }

  lemma SwapRowsAt(g: Grid, n: nat, u: nat, v: nat)
    requires Square(g, n * n) && u < n * n && v < n * n
    ensures Square(SwapRows(g, u, v), n * n)
    ensures forall p :: InGrid(g, p) ==>
      InGrid(g, Pos(p.x, Swapped(p.y, u, v))) && At(SwapRows(g, u, v), p) == At(g, Pos(p.x, Swapped(p.y, u, v)))
  {
  }

  lemma SwapColumnsAt(g: Grid, n: nat, u: nat, v: nat)
    requires Square(g, n * n) && u < n * n && v < n * n
    ensures Square(SwapColumns(g, u, v), n * n)
    ensures forall p :: InGrid(g, p) ==>
      InGrid(g, Pos(Swapped(p.x, u, v), p.y)) && At(SwapColumns(g, u, v), p) == At(g, Pos(Swapped(p.x, u, v), p.y))
  {
  }

  /** The cell whose content a swap moves to p: p with its row (or column)
      index exchanged between band * n + a and band * n + b. */
  function SwapSource(n: nat, s: Swap, p: Pos): Pos
    requires ValidSwap(n, s)
  {
    var u, v := Join(n, s.band, s.a), Join(n, s.band, s.b);
    if s.isRow then Pos(p.x, Swapped(p.y, u, v)) else Pos(Swapped(p.x, u, v), p.y)
  }

  /** One iteration of the swap loop of `randomize_grid`. */
  function ApplySwap(g: Grid, n: nat, s: Swap): (r: Grid)
    requires Square(g, n * n) && ValidSwap(n, s)
    ensures Square(r, n * n)
    ensures forall p {:trigger At(r, p)} :: InGrid(g, p) ==> InGrid(g, SwapSource(n, s, p)) && At(r, p) == At(g, SwapSource(n, s, p))
  {
    var u, v := Join(n, s.band, s.a), Join(n, s.band, s.b);
    SwapRowsAt(g, n, u, v);
    SwapColumnsAt(g, n, u, v);
    if s.isRow then SwapRows(g, u, v) else SwapColumns(g, u, v)
  }

  /** Exchanging the same two indices twice gives the position back. */
  lemma SwapSourceInvolutive(n: nat, s: Swap, p: Pos)
    requires ValidSwap(n, s)
    ensures SwapSource(n, s, SwapSource(n, s, p)) == p
  {
  }

  /** A swap undoes itself. */
  lemma SwapTwiceRestores(g: Grid, n: nat, s: Swap)
    requires Square(g, n * n) && ValidSwap(n, s)
    ensures ApplySwap(ApplySwap(g, n, s), n, s) == g
  {
    var h := ApplySwap(g, n, s);
    var h' := ApplySwap(h, n, s);
    forall p | InGrid(g, p) ensures At(h', p) == At(g, p) {
      var q := SwapSource(n, s, p);
      assert InGrid(h, p) && At(h', p) == At(h, q);
      assert InGrid(g, q) && At(h, q) == At(g, SwapSource(n, s, q));
      SwapSourceInvolutive(n, s, p);
    }
    GridsEqual(h', g, n * n);
  }

  /** The swap loop of `randomize_grid`, applied in list order. */
  function ApplySwaps(g: Grid, n: nat, swaps: seq<Swap>): (r: Grid)
    requires Square(g, n * n) && forall k :: 0 <= k < |swaps| ==> ValidSwap(n, swaps[k])
    ensures Square(r, n * n)
    ensures forall symbols :: IsSolution(g, n, symbols) ==> IsSolution(r, n, symbols)
    decreases |swaps|
  {
    if |swaps| == 0 then g
    else
      SwapKeepsSolutions(g, n, swaps[0]);
      ApplySwaps(ApplySwap(g, n, swaps[0]), n, swaps[1..])
  }

  /** A swap keeps a solved grid solved, whatever the alphabet. */
  lemma SwapKeepsSolutions(g: Grid, n: nat, s: Swap)
    requires Square(g, n * n) && ValidSwap(n, s)
    ensures forall symbols :: IsSolution(g, n, symbols) ==> IsSolution(ApplySwap(g, n, s), n, symbols)
  {
    forall symbols | IsSolution(g, n, symbols) ensures IsSolution(ApplySwap(g, n, s), n, symbols) {
      SwapPreservesSolution(g, n, symbols, s);
    }
  }

  /** Two indices in the same band: swapping them keeps every index in its band. */
  lemma SwappedKeepsBand(n: nat, band: nat, a: nat, b: nat, k: nat)
    requires n > 0 && band < n && a < n && b < n
    ensures Swapped(k, Join(n, band, a), Join(n, band, b)) / n == k / n
  {
  }

  /** The region of the unswapped grid that region r of the swapped grid came from. */
  function SourceRegion(n: nat, s: Swap, r: Region): Region
    requires ValidSwap(n, s)
  {
    var u, v := Join(n, s.band, s.a), Join(n, s.band, s.b);
    if s.isRow && r.Row? then Row(Swapped(r.y, u, v))
    else if !s.isRow && r.Column? then Column(Swapped(r.x, u, v))
    else r
  }

  lemma SourceRegionIsRegion(n: nat, s: Swap, r: Region)
    requires ValidSwap(n, s) && IsRegion(n, r)
    ensures IsRegion(n, SourceRegion(n, s, r))
  {
  }

  /** A cell lies in region r of the swapped grid exactly when its source
      cell lies in the source region: a swap inside one band keeps every row
      in its band and every column in its stack. */
  lemma SwapMovesRegion(n: nat, s: Swap, r: Region, p: Pos)
    requires ValidSwap(n, s)
    ensures InRegion(n, r, p) <==> InRegion(n, SourceRegion(n, s, r), SwapSource(n, s, p))
  {
    SwappedKeepsBand(n, s.band, s.a, s.b, if s.isRow then p.y else p.x);
  }

  /** A symbol held once in the source region is held once in r after the swap. */
  lemma SwapRegion(g: Grid, n: nat, s: Swap, r: Region, c: char)
    requires Square(g, n * n) && ValidSwap(n, s)
    requires ExactlyOnce(g, n, SourceRegion(n, s, r), c)
    ensures ExactlyOnce(ApplySwap(g, n, s), n, r, c)
  {
    var g' := ApplySwap(g, n, s);
    var r0 := SourceRegion(n, s, r);
    var p0 :| InGrid(g, p0) && InRegion(n, r0, p0) && At(g, p0) == Sym(c);
    var p1 := SwapSource(n, s, p0);
    SwapSourceInvolutive(n, s, p0);
    SwapMovesRegion(n, s, r, p1);
    assert InGrid(g, p1) && At(g', p1) == At(g, p0);
    forall p, q | InGrid(g', p) && InGrid(g', q) && InRegion(n, r, p) && InRegion(n, r, q)
      && At(g', p) == Sym(c) && At(g', q) == Sym(c)
      ensures p == q
    {
      SwapMovesRegion(n, s, r, p);
      SwapMovesRegion(n, s, r, q);
      assert InGrid(g, p) && InGrid(g, q);
      assert SwapSource(n, s, p) == SwapSource(n, s, q);
      SwapSourceInvolutive(n, s, p);
      SwapSourceInvolutive(n, s, q);
    }
  }

  /** Swapping two rows, or two columns, inside one band keeps a solved grid solved. */
  lemma SwapPreservesSolution(g: Grid, n: nat, symbols: seq<char>, s: Swap)
    requires IsSolution(g, n, symbols) && ValidSwap(n, s)
    ensures IsSolution(ApplySwap(g, n, s), n, symbols)
  {
    var g' := ApplySwap(g, n, s);
    forall p | InGrid(g', p)
      ensures IsSymbolIn(At(g', p), symbols)
    {
      assert InGrid(g, p) && At(g', p) == At(g, SwapSource(n, s, p));
    }
    forall r, c | IsRegion(n, r) && c in symbols
      ensures ExactlyOnce(g', n, r, c)
    {
      SourceRegionIsRegion(n, s, r);
      SwapRegion(g, n, s, r, c);
    }
  }

  /** A sequence is duplicate-free exactly when no element has multiplicity above one. */
  lemma {:induction false} DistinctIffSingleMultiplicity(s: seq<char>)
    ensures Distinct(s) <==> forall c :: multiset(s)[c] <= 1
  {
    if |s| > 0 {
      var rest := s[1..];
      assert s == [s[0]] + rest;
      DistinctIffSingleMultiplicity(rest);
      if Distinct(s) {
        assert s[0] !in rest by {
          forall k | 0 <= k < |rest| ensures rest[k] != s[0] {
            assert rest[k] == s[k + 1];
          }
        }
        assert Distinct(rest) by {
          forall i, j | 0 <= i < j < |rest| ensures rest[i] != rest[j] {
            assert rest[i] == s[i + 1] && rest[j] == s[j + 1];
          }
        }
      }
      if forall c :: multiset(s)[c] <= 1 {
        assert forall c :: multiset(rest)[c] <= 1 by {
          forall c ensures multiset(rest)[c] <= 1 {
            assert multiset(s)[c] == multiset([s[0]])[c] + multiset(rest)[c];
          }
        }
        assert multiset(s)[s[0]] == 1 + multiset(rest)[s[0]];
        forall i, j | 0 <= i < j < |s| ensures s[i] != s[j] {
          if i == 0 {
            assert s[j] == rest[j - 1];
            assert s[j] in multiset(rest);
          } else {
            assert s[i] == rest[i - 1] && s[j] == rest[j - 1];
          }
        }
      }
    }
  }

  /** A shuffled copy of a duplicate-free alphabet is duplicate-free and holds the same symbols. */
  lemma ShufflePreservesAlphabet(symbols: seq<char>, shuffled: seq<char>)
    requires Distinct(symbols) && multiset(shuffled) == multiset(symbols)
    ensures Distinct(shuffled) && |shuffled| == |symbols|
    ensures forall c :: c in shuffled <==> c in symbols
  {
    DistinctIffSingleMultiplicity(symbols);
    DistinctIffSingleMultiplicity(shuffled);
    assert |multiset(shuffled)| == |multiset(symbols)|;
    forall c ensures c in shuffled <==> c in symbols {
      assert c in shuffled <==> c in multiset(shuffled);
      assert c in symbols <==> c in multiset(symbols);
    }
  }

  /** The grid `randomize_grid` builds: the band pattern over the shuffled
      alphabet, then the swaps. */
  function RandomizedGrid(n: nat, shuffled: seq<char>, swaps: seq<Swap>): (g: Grid)
    requires |shuffled| == n * n
    requires forall k :: 0 <= k < |swaps| ==> ValidSwap(n, swaps[k])
    ensures Square(g, n * n)
    ensures Distinct(shuffled) ==> IsSolution(g, n, shuffled)
  {
    if Distinct(shuffled) then BandGridIsSolution(n, shuffled); ApplySwaps(BandGrid(n, shuffled), n, swaps)
    else ApplySwaps(BandGrid(n, shuffled), n, swaps)
  }

  /** Whatever the shuffle and the in-band swaps, the generated grid is a solved puzzle over the alphabet. */
  lemma RandomizedGridIsSolution(n: nat, symbols: seq<char>, shuffled: seq<char>, swaps: seq<Swap>)
    requires |symbols| == n * n && Distinct(symbols)
    requires multiset(shuffled) == multiset(symbols)
    requires forall k :: 0 <= k < |swaps| ==> ValidSwap(n, swaps[k])
    ensures |shuffled| == n * n
    ensures IsSolution(RandomizedGrid(n, shuffled, swaps), n, symbols)
  {
    ShufflePreservesAlphabet(symbols, shuffled);
    var g := RandomizedGrid(n, shuffled, swaps);
    assert IsSolution(g, n, shuffled);
    forall p | InGrid(g, p) ensures IsSymbolIn(At(g, p), symbols) {
      assert IsSymbolIn(At(g, p), shuffled);
    }
    forall r, c | IsRegion(n, r) && c in symbols ensures ExactlyOnce(g, n, r, c) {
      assert c in shuffled;
    }
  }
}
