/** Baseline enumeration and length selection, as `inspect` and
    `combine_subtracted` do them (eovsapy/flare_spec.py:142-147, 161-166).
    The antenna list, the antenna-pair -> baseline-index table `bl2ord`
    and the per-baseline lengths are inputs: the lengths are the result of
    a square root over `uvw` that this model takes as given. */
module Baselines {
  import opened Common
  import opened Numerics

  type Pair = (int, int)

  /** The pairs the inner loop yields for row k: (ants[k], ants[m]) for m = k+1 .. n-1. */
  function Row(ants: seq<int>, k: nat): seq<Pair>
    requires k < |ants|
  {
    seq(|ants| - 1 - k, j requires 0 <= j < |ants| - 1 - k => (ants[k], ants[k + 1 + j]))
  }

  /** The pairs of the first k rows, in loop order. */
  function PairsUpTo(ants: seq<int>, k: nat): seq<Pair>
    requires k <= |ants|
  {
    if k == 0 then [] else PairsUpTo(ants, k - 1) + Row(ants, k - 1)
  }

  /** All pairs the nested loop over `ants[:-1]` and `ants[k+1:]` visits. */
  function Pairs(ants: seq<int>): seq<Pair> {
    PairsUpTo(ants, if |ants| == 0 then 0 else |ants| - 1)
  }

  /** Position of row k's first pair: (n-1) + (n-2) + ... over the k earlier rows. */
  function RowStart(n: nat, k: nat): nat
    requires k <= n
  {
    if k == 0 then 0 else RowStart(n, k - 1) + (n - k)
  }

  lemma {:induction false} RowStartClosed(n: nat, k: nat)
    requires k <= n
    ensures 2 * RowStart(n, k) == k * (2 * n - k - 1)
  {
    if k > 0 {
      RowStartClosed(n, k - 1);
      assert (k - 1) * (2 * n - k) + 2 * (n - k) == k * (2 * n - k - 1);
    }
  }

  lemma {:induction false} PairsUpToLength(ants: seq<int>, k: nat)
    requires k <= |ants|
    ensures |PairsUpTo(ants, k)| == RowStart(|ants|, k)
  {
    if k > 0 {
      PairsUpToLength(ants, k - 1);
    }
  }

  /** Enumeration yields n(n-1)/2 pairs; none at all when n < 2. */
  lemma PairsLength(ants: seq<int>)
    ensures 2 * |Pairs(ants)| == |ants| * (|ants| - 1)
    ensures |ants| < 2 ==> Pairs(ants) == []
  {
    var n := |ants|;
    if n > 0 {
      PairsUpToLength(ants, n - 1);
      RowStartClosed(n, n - 1);
    }
  }

  lemma {:induction false} PairsUpToPrefix(ants: seq<int>, i: nat, j: nat)
    requires i <= j <= |ants|
    ensures PairsUpTo(ants, i) <= PairsUpTo(ants, j)
    decreases j
  {
    if i < j {
      PairsUpToPrefix(ants, i, j - 1);
    }
  }

  /** Row-major order: the pair (ants[k], ants[m]) of every k < m stands at
      position RowStart(n, k) + (m - k - 1). */
  lemma PairsAt(ants: seq<int>, k: nat, m: nat)
    requires k < m < |ants|
    ensures RowStart(|ants|, k) + (m - k - 1) < |Pairs(ants)|
    ensures Pairs(ants)[RowStart(|ants|, k) + (m - k - 1)] == (ants[k], ants[m])
  {
    var n := |ants|;
    var pre, row := PairsUpTo(ants, k), Row(ants, k);
    var upto := PairsUpTo(ants, k + 1);
    assert upto == pre + row;
    PairsUpToLength(ants, k);
    var pos := RowStart(n, k) + (m - k - 1);
    assert pos - |pre| == m - k - 1 < |row|;
    assert upto[pos] == row[m - k - 1] == (ants[k], ants[m]);
    PairsUpToPrefix(ants, k + 1, n - 1);
    assert Pairs(ants) == PairsUpTo(ants, n - 1);
  }

  /** Every position of the enumeration holds exactly one pair (ants[k], ants[m])
      with k < m, and it sits at that pair's row-major position. */
  lemma {:induction false} PairsUpToDecode(ants: seq<int>, j: nat, i: nat)
    requires j <= |ants| && i < |PairsUpTo(ants, j)|
    ensures exists k: nat, m: nat ::
      (k < m < |ants| && k < j && i == RowStart(|ants|, k) + (m - k - 1) && PairsUpTo(ants, j)[i] == (ants[k], ants[m]))
  {
    PairsUpToLength(ants, j - 1);
    if i < |PairsUpTo(ants, j - 1)| {
      PairsUpToDecode(ants, j - 1, i);
    } else {
      var k := j - 1;
      var m := k + 1 + (i - RowStart(|ants|, k));
      assert PairsUpTo(ants, j)[i] == Row(ants, k)[m - k - 1];
    }
  }

  /** Membership: a pair is enumerated exactly when it is (ants[k], ants[m])
      for some k < m. */
  lemma PairsMember(ants: seq<int>, p: Pair)
    ensures p in Pairs(ants) <==> exists k: nat, m: nat :: k < m < |ants| && p == (ants[k], ants[m])
  {
    if p in Pairs(ants) {
      var i :| 0 <= i < |Pairs(ants)| && Pairs(ants)[i] == p;
      PairsUpToDecode(ants, if |ants| == 0 then 0 else |ants| - 1, i);
    }
    if exists k: nat, m: nat :: k < m < |ants| && p == (ants[k], ants[m]) {
      var k: nat, m: nat :| k < m < |ants| && p == (ants[k], ants[m]);
      PairsAt(ants, k, m);
    }
  }

  predicate Distinct(ants: seq<int>) {
    forall i, j :: 0 <= i < j < |ants| ==> ants[i] != ants[j]
  }

  /** For a list of distinct antennas no antenna is paired with itself and no
      pair is enumerated twice. */
  lemma PairsDistinct(ants: seq<int>)
    requires Distinct(ants)
    ensures forall a :: (a, a) !in Pairs(ants)
    ensures forall i, j :: 0 <= i < j < |Pairs(ants)| ==> Pairs(ants)[i] != Pairs(ants)[j]
  {
    forall a ensures (a, a) !in Pairs(ants) {
      PairsMember(ants, (a, a));
    }
    var last := if |ants| == 0 then 0 else |ants| - 1;
    forall i, j | 0 <= i < j < |Pairs(ants)| ensures Pairs(ants)[i] != Pairs(ants)[j] {
      PairsUpToDecode(ants, last, i);
      PairsUpToDecode(ants, last, j);
    }
  }

  /** The baseline index of each pair, in enumeration order. */
  function BaselineOrder(pairs: seq<Pair>, bl2ord: (int, int) -> int): (r: seq<int>)
    ensures |r| == |pairs|
  {
    if pairs == [] then []
    else BaselineOrder(pairs[..|pairs| - 1], bl2ord) + [bl2ord(pairs[|pairs| - 1].0, pairs[|pairs| - 1].1)]
  }

  lemma {:induction false} BaselineOrderAt(pairs: seq<Pair>, bl2ord: (int, int) -> int, i: nat)
    requires i < |pairs|
    ensures BaselineOrder(pairs, bl2ord)[i] == bl2ord(pairs[i].0, pairs[i].1)
  {
    if i < |pairs| - 1 {
      BaselineOrderAt(pairs[..|pairs| - 1], bl2ord, i);
    }
  }

  /** The `idx` list built by the nested loop: `bl2ord[ants[k], ants[m]]` for
      every k < m, row by row. */
  method EnumerateBaselines(ants: seq<int>, bl2ord: (int, int) -> int) returns (idx: seq<int>)
    ensures idx == BaselineOrder(Pairs(ants), bl2ord)
  {
    idx := [];
    var rows := if |ants| == 0 then 0 else |ants| - 1;
    for k := 0 to rows
      invariant idx == BaselineOrder(PairsUpTo(ants, k), bl2ord)
    {
      var i := ants[k];
      ghost var done := PairsUpTo(ants, k);
      assert done + Row(ants, k)[..0] == done;
      for m := k + 1 to |ants|
        invariant idx == BaselineOrder(done + Row(ants, k)[..m - k - 1], bl2ord)
      {
        RowPrefixStep(ants, k, m, done);
        BaselineOrderSnoc(done + Row(ants, k)[..m - k - 1], (i, ants[m]), bl2ord);
        idx := idx + [bl2ord(i, ants[m])];
      }
      assert Row(ants, k)[..|ants| - k - 1] == Row(ants, k);
    }
  }

  lemma RowPrefixStep(ants: seq<int>, k: nat, m: nat, done: seq<Pair>)
    requires k < m < |ants|
    ensures done + Row(ants, k)[..m - k] == (done + Row(ants, k)[..m - k - 1]) + [(ants[k], ants[m])]
  {
    var row := Row(ants, k);
    assert row[..m - k] == row[..m - k - 1] + [row[m - k - 1]];
  }

  lemma BaselineOrderSnoc(pairs: seq<Pair>, p: Pair, bl2ord: (int, int) -> int)
    ensures BaselineOrder(pairs + [p], bl2ord) == BaselineOrder(pairs, bl2ord) + [bl2ord(p.0, p.1)]
  {
    assert (pairs + [p])[..|pairs|] == pairs;
  }

  /** Closed form of the enumeration: n(n-1)/2 indices, the one for k < m at
      row-major position RowStart(n, k) + (m - k - 1). */
  lemma BaselineOrderClosedForm(ants: seq<int>, bl2ord: (int, int) -> int, k: nat, m: nat)
    requires k < m < |ants|
    ensures 2 * |BaselineOrder(Pairs(ants), bl2ord)| == |ants| * (|ants| - 1)
    ensures RowStart(|ants|, k) + (m - k - 1) < |BaselineOrder(Pairs(ants), bl2ord)|
    ensures BaselineOrder(Pairs(ants), bl2ord)[RowStart(|ants|, k) + (m - k - 1)] == bl2ord(ants[k], ants[m])
  {
    PairsLength(ants);
    PairsAt(ants, k, m);
    BaselineOrderAt(Pairs(ants), bl2ord, RowStart(|ants|, k) + (m - k - 1));
  }

  // ---------------------------------------------------------------- selection

  /** The length window of the selection: both bounds excluded. */
  predicate InBand(len: real) {
    150.0 < len < 1000.0
  }

  /** `blen[idx[p]]` is defined: a valid numpy index into blen. */
  predicate Indexable(blen: seq<real>, idx: seq<int>) {
    forall p :: 0 <= p < |idx| ==> NpIndex(idx[p], |blen|).Some?
  }

  function LengthAt(blen: seq<real>, i: int): real
    requires NpIndex(i, |blen|).Some?
  {
    blen[NpIndex(i, |blen|).value]
  }

  /** `good, = np.where(np.logical_and(blen[idx] > 150., blen[idx] < 1000.))`:
      the positions p of idx whose baseline length lies strictly inside
      (150, 1000), ascending. An empty `idx` becomes a float64 array, which
      numpy refuses as an index: that, and any index outside blen, is an
      IndexError (None). */
  function SelectGood(blen: seq<real>, idx: seq<int>): (r: Option<seq<nat>>)
    ensures r.Some? <==> |idx| > 0 && Indexable(blen, idx)
    ensures r.Some? ==> Ascending(r.value) && forall q :: 0 <= q < |r.value| ==> r.value[q] < |idx|
    ensures r.Some? ==> forall p :: 0 <= p < |idx| ==> (p in r.value <==> InBand(LengthAt(blen, idx[p])))
  {
    if |idx| == 0 || !Indexable(blen, idx) then None
    else Some(Where(|idx|, (p: nat) => p < |idx| && NpIndex(idx[p], |blen|).Some? && InBand(LengthAt(blen, idx[p]))))
  }

  /** `idx[good]`: the selected baseline indices. */
  function Gather(idx: seq<int>, good: seq<nat>): (r: seq<int>)
    requires forall q :: 0 <= q < |good| ==> good[q] < |idx|
    ensures |r| == |good|
  {
    seq(|good|, q requires 0 <= q < |good| => idx[good[q]])
  }

  /** The whole selection of lines 142-147: enumerate, then keep the in-band
      baselines. It fails exactly when an enumerated index is not a valid
      index of blen, or when there are fewer than two antennas: there is then
      nothing to enumerate, and the empty float index array is refused
      instead of giving an empty selection. */
  function SelectBaselines(blen: seq<real>, ants: seq<int>, bl2ord: (int, int) -> int): (r: Option<seq<int>>)
    ensures r.Some? <==> |ants| >= 2 && Indexable(blen, BaselineOrder(Pairs(ants), bl2ord))
  {
    PairsLength(ants);
    var idx := BaselineOrder(Pairs(ants), bl2ord);
    match SelectGood(blen, idx)
    case None => None
    case Some(good) => Some(Gather(idx, good))
  }

  /** Every selected baseline is `bl2ord` of two different positions k < m of
      the antenna list, and its length is strictly inside (150, 1000). */
  lemma SelectBaselinesSound(blen: seq<real>, ants: seq<int>, bl2ord: (int, int) -> int, b: int)
    requires SelectBaselines(blen, ants, bl2ord).Some? && b in SelectBaselines(blen, ants, bl2ord).value
    ensures exists k: nat, m: nat :: k < m < |ants| && b == bl2ord(ants[k], ants[m])
    ensures NpIndex(b, |blen|).Some? && InBand(LengthAt(blen, b))
  {
    var idx := BaselineOrder(Pairs(ants), bl2ord);
    var good := SelectGood(blen, idx).value;
    var sel := Gather(idx, good);
    var q :| 0 <= q < |sel| && sel[q] == b;
    var p := good[q];
    assert p in good;
    BaselineOrderAt(Pairs(ants), bl2ord, p);
    PairsMember(ants, Pairs(ants)[p]);
  }

  /** Conversely, every pair k < m whose baseline length is strictly inside
      (150, 1000) is selected. */
  lemma SelectBaselinesComplete(blen: seq<real>, ants: seq<int>, bl2ord: (int, int) -> int, k: nat, m: nat)
    requires k < m < |ants| && SelectBaselines(blen, ants, bl2ord).Some?
    requires NpIndex(bl2ord(ants[k], ants[m]), |blen|).Some? && InBand(LengthAt(blen, bl2ord(ants[k], ants[m])))
    ensures bl2ord(ants[k], ants[m]) in SelectBaselines(blen, ants, bl2ord).value
  {
    var idx := BaselineOrder(Pairs(ants), bl2ord);
    var good := SelectGood(blen, idx).value;
    var p := RowStart(|ants|, k) + (m - k - 1);
    BaselineOrderClosedForm(ants, bl2ord, k, m);
    assert p in good;
    var q :| 0 <= q < |good| && good[q] == p;
    assert Gather(idx, good)[q] == idx[p];
  }
}
