/** Integer facts the grid model leans on: Euclidean division by the box size,
    arithmetic modulo the box size, and a positional (base-b) potential used to
    show that the backtracking solver terminates. */
module Arith {

  lemma MulAtLeast(n: int, d: int)
    requires n > 0 && d >= 1
    ensures n * d >= n
  {
  }

  lemma MulMonotone(a: int, b: int, c: int)
    requires 0 <= a <= b && c >= 0
    ensures a * c <= b * c
  {
  }

  lemma MulSucc(a: int, b: int)
    ensures (a + 1) * b == a * b + b
  {
  }

  /** Division and remainder by n are determined by any decomposition q * n + r with 0 <= r < n. */
  lemma DivModUnique(n: int, q: int, r: int)
    requires n > 0 && 0 <= r < n
    ensures (q * n + r) / n == q && (q * n + r) % n == r
  {
    var t := q * n + r;
    var d := q - t / n;
    assert n * d == t % n - r;
    if d >= 1 {
      MulAtLeast(n, d);
    } else if d <= -1 {
      MulAtLeast(n, -d);
    }
  }

  /** An index below n * n splits into a band number and an offset, both below n. */
  lemma SplitIndex(n: int, i: int)
    requires n > 0 && 0 <= i < n * n
    ensures 0 <= i / n < n && 0 <= i % n < n
    ensures i == (i / n) * n + i % n
  {
  }

  /** A band number and an offset below n recombine into an index below n * n. */
  lemma JoinIndex(n: int, q: int, r: int)
    requires n > 0 && 0 <= q < n && 0 <= r < n
    ensures 0 <= q * n + r < n * n
    ensures (q * n + r) / n == q && (q * n + r) % n == r
  {
    DivModUnique(n, q, r);
    MulMonotone(q + 1, n, n);
  }

  /** The index of offset r in band q. */
  function Join(n: nat, q: nat, r: nat): (t: nat)
    requires q < n && r < n
    ensures t < n * n && t / n == q && t % n == r
  {
    JoinIndex(n, q, r);
    q * n + r
  }

  /** For a sum of two residues, the remainder either is the sum or drops by n. */
  lemma ModOfSmallSum(n: int, t: int)
    requires n > 0 && 0 <= t < 2 * n
    ensures t % n == if t < n then t else t - n
  {
    if t < n {
      DivModUnique(n, 0, t);
    } else {
      DivModUnique(n, 1, t - n);
    }
  }

  /** Adding a fixed residue modulo n is injective on residues. */
  lemma AddModInjective(n: int, u: int, u': int, v: int)
    requires n > 0 && 0 <= u < n && 0 <= u' < n && 0 <= v < n
    requires (u + v) % n == (u' + v) % n
    ensures u == u'
  {
    ModOfSmallSum(n, u + v);
    ModOfSmallSum(n, u' + v);
  }

  /** (s - u) % n is the residue that, added to u, gives s back. */
  lemma AddModInverse(n: int, u: int, s: int)
    requires n > 0 && 0 <= u < n && 0 <= s < n
    ensures 0 <= (s - u) % n < n
    ensures (u + (s - u) % n) % n == s
  {
    if s >= u {
      DivModUnique(n, 0, s - u);
      ModOfSmallSum(n, s);
    } else {
      DivModUnique(n, -1, s - u + n);
      ModOfSmallSum(n, s + n);
    }
  }

  function Pow(b: nat, e: nat): (r: nat)
    ensures b >= 1 ==> r >= 1
  {
    if e == 0 then 1 else b * Pow(b, e - 1)
  }

  /** The sequence read as the digits of a base-b number, most significant first. */
  function Potential(v: seq<nat>, b: nat): nat
  {
    if |v| == 0 then 0 else v[0] * Pow(b, |v| - 1) + Potential(v[1..], b)
  }

  predicate Digits(v: seq<nat>, b: nat)
  {
    forall k :: 0 <= k < |v| ==> v[k] < b
  }

  /** A number written with |v| digits in base b is below b^|v|. */
  lemma {:induction false} PotentialBelow(v: seq<nat>, b: nat)
    requires Digits(v, b)
    ensures Potential(v, b) < Pow(b, |v|)
  {
    if |v| > 0 {
      var p := Pow(b, |v| - 1);
      PotentialBelow(v[1..], b);
      MulMonotone(v[0] + 1, b, p);
      assert Potential(v, b) < (v[0] + 1) * p;
    }
  }

  /** Lexicographic order on equal-length digit strings agrees with numeric order. */
  lemma {:induction false} PotentialLexLess(v: seq<nat>, w: seq<nat>, b: nat, m: nat)
    requires |v| == |w| && m < |v|
    requires Digits(v, b) && Digits(w, b)
    requires forall k :: 0 <= k < m ==> v[k] == w[k]
    requires v[m] < w[m]
    ensures Potential(v, b) < Potential(w, b)
  {
    var p := Pow(b, |v| - 1);
    assert Potential(v, b) == v[0] * p + Potential(v[1..], b);
    assert Potential(w, b) == w[0] * p + Potential(w[1..], b);
    if m == 0 {
      PotentialBelow(v[1..], b);
      MulMonotone(v[0] + 1, w[0], p);
      assert Potential(v, b) < (v[0] + 1) * p;
    } else {
      assert v[0] == w[0];
      PotentialLexLess(v[1..], w[1..], b, m - 1);
    }
  }
}
