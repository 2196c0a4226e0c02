/** The numpy vocabulary the spectrogram code relies on, over exact reals:
    NaN-tagged cells, NaN-ignoring means, Python slicing and indexing,
    `np.where` over a condition, and `np.round` (round half to even). */
module Numerics {
  import opened Common

  /** One float64 element of a numpy array: NaN, or a (finite) value. */
  datatype Cell = NaN | Num(x: real)

  /** IEEE arithmetic on cells: NaN is absorbing. */
  function Add(a: Cell, b: Cell): Cell {
    if a.Num? && b.Num? then Num(a.x + b.x) else NaN
  }

  function Sub(a: Cell, b: Cell): Cell {
    if a.Num? && b.Num? then Num(a.x - b.x) else NaN
  }

  function Mul(a: Cell, b: Cell): Cell {
    if a.Num? && b.Num? then Num(a.x * b.x) else NaN
  }

  /** Number of non-NaN cells. */
  function NumCount(s: seq<Cell>): (r: nat)
    ensures r <= |s|
  {
    if s == [] then 0 else NumCount(s[..|s| - 1]) + (if s[|s| - 1].Num? then 1 else 0)
  }

  /** Sum of the non-NaN cells. */
  function NumSum(s: seq<Cell>): real {
    if s == [] then 0.0 else NumSum(s[..|s| - 1]) + (if s[|s| - 1].Num? then s[|s| - 1].x else 0.0)
  }

  /** `np.nanmean` of a one-dimensional slice: the mean of the non-NaN
      cells, and NaN (numpy's "mean of empty slice") when there are none. */
  function NanMean(s: seq<Cell>): (r: Cell)
    ensures r.NaN? <==> NumCount(s) == 0
  {
    if NumCount(s) == 0 then NaN else Num(NumSum(s) / NumCount(s) as real)
  }

  /** Every non-NaN cell of `s` lies in [lo, hi]. */
  predicate NumsWithin(s: seq<Cell>, lo: real, hi: real) {
    forall i :: 0 <= i < |s| && s[i].Num? ==> lo <= s[i].x <= hi
  }

  /** n copies of x added up: n * x without a multiplication, so that the
      bounds below stay within linear arithmetic. */
  function Scaled(n: nat, x: real): real {
    if n == 0 then 0.0 else Scaled(n - 1, x) + x
  }

  lemma {:induction false} ScaledIsProduct(n: nat, x: real)
    ensures Scaled(n, x) == n as real * x
  {
    if n > 0 {
      ScaledIsProduct(n - 1, x);
      assert n as real * x == (n - 1) as real * x + x;
    }
  }

  lemma {:induction false} NumSumWithin(s: seq<Cell>, lo: real, hi: real)
    requires NumsWithin(s, lo, hi)
    ensures Scaled(NumCount(s), lo) <= NumSum(s) <= Scaled(NumCount(s), hi)
  {
    if s != [] {
      NumsWithinPrefix(s, lo, hi);
      NumSumWithin(s[..|s| - 1], lo, hi);
    }
  }

  lemma NumsWithinPrefix(s: seq<Cell>, lo: real, hi: real)
    requires s != [] && NumsWithin(s, lo, hi)
    ensures NumsWithin(s[..|s| - 1], lo, hi)
    ensures s[|s| - 1].Num? ==> lo <= s[|s| - 1].x <= hi
  {
    var p := s[..|s| - 1];
    forall i | 0 <= i < |p| && p[i].Num? ensures lo <= p[i].x <= hi {
      assert p[i] == s[i];
    }
  }

  lemma DivWithin(total: real, n: real, lo: real, hi: real)
    requires n > 0.0 && n * lo <= total <= n * hi
    ensures lo <= total / n <= hi
  {
    var m := total / n;
    assert (m - lo) * n == total - n * lo;
    assert (hi - m) * n == n * hi - total;
  }

  /** The NaN-ignoring mean lies between the least and the greatest non-NaN
      value it averages. */
  lemma NanMeanWithin(s: seq<Cell>, lo: real, hi: real)
    requires NumsWithin(s, lo, hi) && NumCount(s) > 0
    ensures NanMean(s).Num? && lo <= NanMean(s).x <= hi
  {
    NumSumWithin(s, lo, hi);
    ScaledIsProduct(NumCount(s), lo);
    ScaledIsProduct(NumCount(s), hi);
    DivWithin(NumSum(s), NumCount(s) as real, lo, hi);
  }

  /** A slice bound as Python normalises it for a sequence of length n:
      negatives count from the end, and both ends clamp to [0, n]. */
  function SliceBound(i: int, n: nat): (r: nat)
    ensures r <= n
    ensures 0 <= i <= n ==> r == i
    ensures i < 0 && -i <= n ==> r == n + i
    ensures i < 0 && -i > n ==> r == 0
    ensures i > n ==> r == n
  {
    if i < 0 then (if i + n < 0 then 0 else i + n) else if i > n then n else i
  }

  /** `s[lo:hi]` with Python semantics: never fails, possibly empty. */
  function PySlice<T>(s: seq<T>, lo: int, hi: int): (r: seq<T>)
    ensures |r| <= |s|
    ensures 0 <= lo <= hi <= |s| ==> r == s[lo..hi]
  {
    var a, b := SliceBound(lo, |s|), SliceBound(hi, |s|);
    if a < b then s[a..b] else []
  }

  /** The element a numpy index i selects in an axis of length n:
      negatives wrap once; anything else out of range is an IndexError. */
  function NpIndex(i: int, n: nat): (r: Option<nat>)
    ensures r.Some? <==> -(n as int) <= i < n
    ensures r.Some? ==> r.value < n && (r.value == i || r.value == i + n)
  {
    if 0 <= i < n then Some(i) else if -(n as int) <= i < 0 then Some(i + n) else None
  }

  /** Strictly ascending sequence of naturals. */
  predicate Ascending(r: seq<nat>) {
    forall i, j :: 0 <= i < j < |r| ==> r[i] < r[j]
  }

  /** `np.where(cond)` for a one-dimensional condition over positions
      0 .. n-1: exactly the positions where the condition holds, ascending. */
  function Where(n: nat, p: nat -> bool): (r: seq<nat>)
    ensures Ascending(r)
    ensures forall i :: 0 <= i < |r| ==> r[i] < n && p(r[i])
    ensures forall k: nat :: k < n && p(k) ==> k in r
  {
    if n == 0 then []
    else
      var r := Where(n - 1, p);
      if p(n - 1) then r + [n - 1] else r
  }

  /** `np.round` of one value: round to the nearest integer, halves to even. */
  function RoundHalfEven(x: real): (r: int)
    ensures r as real - 0.5 <= x <= r as real + 0.5
    ensures x == r as real - 0.5 || x == r as real + 0.5 ==> r % 2 == 0
  {
    var f := x.Floor;
    var d := x - f as real;
    if d < 0.5 then f
    else if d > 0.5 then f + 1
    else if f % 2 == 0 then f
    else f + 1
  }
}
