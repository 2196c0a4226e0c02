/** Spectrogram post-processing of `make_plot` (eovsapy/flare_spec.py:277-308,
    339-351): background subtraction (none, one window, or two windows with
    linear interpolation in time), NaN masking of the notched frequency rows,
    the in-place time-stamp repair `fix_times`, NaN masking of the columns
    before a time gap, and the names of the two files it writes.
    A spectrogram is indexed [frequency][time]; its values are exact reals
    with NaN as a tag, time stamps are exact Julian dates. */
module Spectrogram {
  import opened Common
  import opened Numerics
  import FileNames

  /** Every row of the spectrogram has one cell per time stamp. */
  predicate Shaped(spec: seq<seq<Cell>>, nt: nat) {
    forall f :: 0 <= f < |spec| ==> |spec[f]| == nt
  }

  /** A time-index window, the two-element list `[lo, hi]` of `bgidx` or `bg2idx`. */
  datatype Window = Window(lo: int, hi: int)

  /** Where `make_plot` raises before it writes anything. */
  datatype PlotFault =
    | EmptyTimeAxis     // `out['time'][0]` of the relative-time line
    | BackgroundIndex   // `out['time'][bgidx[0]]` or `out['time'][bg2idx[1]]`
    | RepairIndex       // `jd[b+2]` in `fix_times` for the last step

  // ---------------------------------------------------------------- background

  /** `np.nanmean(spec[f, w.lo:w.hi])`: one row's background over a window. */
  function WindowMean(row: seq<Cell>, w: Window): Cell {
    NanMean(PySlice(row, w.lo, w.hi))
  }

  /** The two time stamps the dual-window interpolation reads exist. */
  predicate BackgroundDefined(time: seq<real>, bgidx: Option<Window>, bg2idx: Option<Window>) {
    bgidx.None? || bg2idx.None?
    || (NpIndex(bgidx.value.lo, |time|).Some? && NpIndex(bg2idx.value.hi, |time|).Some?)
  }

  /** Relative time `(x - t0) / (t1 - t0)`; a zero span has no value. */
  function RelTime(x: real, t0: real, t1: real): (r: Cell)
    ensures r.Num? <==> t1 != t0
    ensures r.Num? ==> r.x * (t1 - t0) == x - t0
  {
    if t1 == t0 then NaN else Num((x - t0) / (t1 - t0))
  }

  /** `(bgd2 - bgd1) * ti + bgd1` */
  function Interp(b1: Cell, b2: Cell, ti: Cell): Cell {
    Add(Mul(Sub(b2, b1), ti), b1)
  }

  /** Start and end time stamps of the interpolation: `time[bgidx[0]]` and
      `time[bg2idx[1]]` (the exclusive end of the second window, used as an index). */
  function SpanStart(time: seq<real>, w1: Window): real
    requires NpIndex(w1.lo, |time|).Some?
  {
    time[NpIndex(w1.lo, |time|).value]
  }

  function SpanEnd(time: seq<real>, w2: Window): real
    requires NpIndex(w2.hi, |time|).Some?
  {
    time[NpIndex(w2.hi, |time|).value]
  }

  /** The background subtracted from cell (f, t) when `bgidx` is given. */
  function BackgroundAt(spec: seq<seq<Cell>>, time: seq<real>, w1: Window, bg2idx: Option<Window>, f: nat, t: nat): Cell
    requires f < |spec| && t < |time|
    requires BackgroundDefined(time, Some(w1), bg2idx)
  {
    var b1 := WindowMean(spec[f], w1);
    match bg2idx
    case None => b1
    case Some(w2) => Interp(b1, WindowMean(spec[f], w2), RelTime(time[t], SpanStart(time, w1), SpanEnd(time, w2)))
  }

  /** Cell (f, t) of `subspec` after background subtraction. */
  function SubtractedAt(spec: seq<seq<Cell>>, time: seq<real>, bgidx: Option<Window>, bg2idx: Option<Window>, f: nat, t: nat): Cell
    requires Shaped(spec, |time|) && f < |spec| && t < |time|
    requires BackgroundDefined(time, bgidx, bg2idx)
  {
    match bgidx
    case None => spec[f][t]
    case Some(w1) => Sub(spec[f][t], BackgroundAt(spec, time, w1, bg2idx, f, t))
  }

  /** With `bgidx` None the spectrogram is passed through unchanged. */
  lemma NoBackgroundIsCopy(spec: seq<seq<Cell>>, time: seq<real>, bg2idx: Option<Window>, f: nat, t: nat)
    requires Shaped(spec, |time|) && f < |spec| && t < |time|
    ensures SubtractedAt(spec, time, None, bg2idx, f, t) == spec[f][t]
  {
  }

  /** `make_plot`'s default `bgidx`. */
  const DefaultBackground := Window(100, 110)

  /** One window: every column of row f loses the same amount, the
      NaN-ignoring mean of the row over the window. When the window holds no
      number of the row (all NaN, or empty) that mean is NaN and the whole
      row becomes NaN. */
  lemma SingleWindowRowConstant(spec: seq<seq<Cell>>, time: seq<real>, w1: Window, f: nat, t: nat, u: nat)
    requires Shaped(spec, |time|) && f < |spec| && t < |time| && u < |time|
    ensures BackgroundAt(spec, time, w1, None, f, t) == BackgroundAt(spec, time, w1, None, f, u) == WindowMean(spec[f], w1)
    ensures WindowMean(spec[f], w1).NaN? <==> NumCount(PySlice(spec[f], w1.lo, w1.hi)) == 0
    ensures WindowMean(spec[f], w1).NaN? ==> SubtractedAt(spec, time, Some(w1), None, f, t) == NaN
    ensures spec[f][t].Num? && WindowMean(spec[f], w1).Num? ==>
      SubtractedAt(spec, time, Some(w1), None, f, t) == Num(spec[f][t].x - WindowMean(spec[f], w1).x)
  {
  }

  /** With the default window [100, 110] and at most 100 time samples the
      window is empty, so every row of the subtracted spectrogram is NaN. */
  lemma DefaultWindowOnShortRecording(spec: seq<seq<Cell>>, time: seq<real>, f: nat, t: nat)
    requires Shaped(spec, |time|) && f < |spec| && t < |time| && |time| <= 100
    ensures SubtractedAt(spec, time, Some(DefaultBackground), None, f, t) == NaN
  {
    assert PySlice(spec[f], 100, 110) == [];
  }

  /** One window whose values of row f lie between lo and hi, at least one
      of them a number: the amount subtracted lies between lo and hi too. */
  lemma SingleWindowBounded(spec: seq<seq<Cell>>, time: seq<real>, w1: Window, f: nat, t: nat, lo: real, hi: real)
    requires Shaped(spec, |time|) && f < |spec| && t < |time|
    requires NumsWithin(PySlice(spec[f], w1.lo, w1.hi), lo, hi) && NumCount(PySlice(spec[f], w1.lo, w1.hi)) > 0
    ensures BackgroundAt(spec, time, w1, None, f, t).Num?
    ensures lo <= BackgroundAt(spec, time, w1, None, f, t).x <= hi
  {
    NanMeanWithin(PySlice(spec[f], w1.lo, w1.hi), lo, hi);
  }

  /** Two windows, at the first window's start column (relative time 0): the
      background is the first window's mean, exactly as with one window --
      provided the span is not empty and the second mean is a number (a NaN
      second mean makes `(bgd2 - bgd1) * 0` NaN). */
  lemma DualMatchesSingleAtStart(spec: seq<seq<Cell>>, time: seq<real>, w1: Window, w2: Window, f: nat)
    requires Shaped(spec, |time|) && f < |spec|
    requires BackgroundDefined(time, Some(w1), Some(w2))
    requires SpanEnd(time, w2) != SpanStart(time, w1)
    requires WindowMean(spec[f], w2).Num? || WindowMean(spec[f], w1).NaN?
    ensures SubtractedAt(spec, time, Some(w1), Some(w2), f, NpIndex(w1.lo, |time|).value)
         == SubtractedAt(spec, time, Some(w1), None, f, NpIndex(w1.lo, |time|).value)
  {
    var t := NpIndex(w1.lo, |time|).value;
    var ti := RelTime(time[t], SpanStart(time, w1), SpanEnd(time, w2));
    assert ti == Num(0.0);
  }

  lemma DivSelf(d: real)
    requires d != 0.0
    ensures d / d == 1.0
  {
  }

  /** Two windows, at column `bg2idx[1]` (relative time 1): the background is
      the second window's mean. */
  lemma DualReachesSecondAtEnd(spec: seq<seq<Cell>>, time: seq<real>, w1: Window, w2: Window, f: nat)
    requires Shaped(spec, |time|) && f < |spec|
    requires BackgroundDefined(time, Some(w1), Some(w2))
    requires SpanEnd(time, w2) != SpanStart(time, w1)
    requires WindowMean(spec[f], w1).Num?
    ensures BackgroundAt(spec, time, w1, Some(w2), f, NpIndex(w2.hi, |time|).value) == WindowMean(spec[f], w2)
  {
    var t := NpIndex(w2.hi, |time|).value;
    var t0, t1 := SpanStart(time, w1), SpanEnd(time, w2);
    var ti := RelTime(time[t], t0, t1);
    DivSelf(t1 - t0);
    assert ti == Num(1.0);
  }

  /** Two windows: the background is linear in the time stamp, with slope
      (bgd2 - bgd1) / (time[bg2idx[1]] - time[bgidx[0]]); outside the span it
      extrapolates, nothing clips it. */
  lemma DualIsLinearInTime(spec: seq<seq<Cell>>, time: seq<real>, w1: Window, w2: Window, f: nat, t: nat, u: nat)
    requires Shaped(spec, |time|) && f < |spec| && t < |time| && u < |time|
    requires BackgroundDefined(time, Some(w1), Some(w2))
    requires SpanEnd(time, w2) != SpanStart(time, w1)
    requires WindowMean(spec[f], w1).Num? && WindowMean(spec[f], w2).Num?
    ensures BackgroundAt(spec, time, w1, Some(w2), f, t).Num? && BackgroundAt(spec, time, w1, Some(w2), f, u).Num?
    ensures (BackgroundAt(spec, time, w1, Some(w2), f, t).x - BackgroundAt(spec, time, w1, Some(w2), f, u).x)
              * (SpanEnd(time, w2) - SpanStart(time, w1))
         == (WindowMean(spec[f], w2).x - WindowMean(spec[f], w1).x) * (time[t] - time[u])
  {
    var t0, t1 := SpanStart(time, w1), SpanEnd(time, w2);
    var b1, b2 := WindowMean(spec[f], w1).x, WindowMean(spec[f], w2).x;
    var rt, ru := RelTime(time[t], t0, t1).x, RelTime(time[u], t0, t1).x;
    var d := b2 - b1;
    assert BackgroundAt(spec, time, w1, Some(w2), f, t) == Num(d * rt + b1);
    assert BackgroundAt(spec, time, w1, Some(w2), f, u) == Num(d * ru + b1);
    calc {
      ((d * rt + b1) - (d * ru + b1)) * (t1 - t0);
      d * (rt * (t1 - t0)) - d * (ru * (t1 - t0));
      d * (time[t] - t0) - d * (time[u] - t0);
      d * (time[t] - time[u]);
    }
  }

  /** The dual-window loop: `bgd[:, i] = (bgd2 - bgd1) * ti[i] + bgd1`,
      filled column by column into a zero array of the spectrogram's shape. */
  method InterpolatedBackground(bgd1: seq<Cell>, bgd2: seq<Cell>, ti: seq<Cell>) returns (bgd: array2<Cell>)
    requires |bgd1| == |bgd2|
    ensures fresh(bgd) && bgd.Length0 == |bgd1| && bgd.Length1 == |ti|
    ensures forall f, t :: 0 <= f < |bgd1| && 0 <= t < |ti| ==> bgd[f, t] == Interp(bgd1[f], bgd2[f], ti[t])
  {
    bgd := new Cell[|bgd1|, |ti|]((f, t) => Num(0.0));
    for i := 0 to |ti|
      invariant forall f, t :: 0 <= f < |bgd1| && 0 <= t < i ==> bgd[f, t] == Interp(bgd1[f], bgd2[f], ti[t])
    {
      forall f | 0 <= f < |bgd1| {
        bgd[f, i] := Interp(bgd1[f], bgd2[f], ti[i]);
      }
    }
  }

  /** Lines 279-292: `subspec` is a copy of `spec`, or `spec - bgd` for the
      one-window or the two-window background. */
  method SubtractBackground(spec: seq<seq<Cell>>, time: seq<real>, bgidx: Option<Window>, bg2idx: Option<Window>)
    returns (subspec: array2<Cell>)
    requires Shaped(spec, |time|) && BackgroundDefined(time, bgidx, bg2idx)
    ensures fresh(subspec) && subspec.Length0 == |spec| && subspec.Length1 == |time|
    ensures forall f, t :: 0 <= f < |spec| && 0 <= t < |time| ==>
      subspec[f, t] == SubtractedAt(spec, time, bgidx, bg2idx, f, t)
  {
    var nf, nt := |spec|, |time|;
    subspec := new Cell[nf, nt];
    if bgidx.None? {
      forall f, t | 0 <= f < nf && 0 <= t < nt {
        subspec[f, t] := spec[f][t];
      }
    } else {
      var w1 := bgidx.value;
      var bgd1 := seq(nf, f requires 0 <= f < nf => WindowMean(spec[f], w1));
      if bg2idx.None? {
        forall f, t | 0 <= f < nf && 0 <= t < nt {
          subspec[f, t] := Sub(spec[f][t], bgd1[f]);
        }
      } else {
        var w2 := bg2idx.value;
        var bgd2 := seq(nf, f requires 0 <= f < nf => WindowMean(spec[f], w2));
        var t0, t1 := SpanStart(time, w1), SpanEnd(time, w2);
        var ti := seq(nt, i requires 0 <= i < nt => RelTime(time[i], t0, t1));
        var bgd := InterpolatedBackground(bgd1, bgd2, ti);
        forall f, t | 0 <= f < nf && 0 <= t < nt {
          subspec[f, t] := Sub(spec[f][t], bgd[f, t]);
        }
      }
    }
  }

  // ---------------------------------------------------------------- notch rows

  /** The hardware notch: `abs(fghz - 1.742) < 0.001`. */
  predicate IsNotch(fghz: real) {
    -0.001 < fghz - 1.742 < 0.001
  }

  /** `bad, = np.where(abs(out['fghz'] - 1.742) < 0.001)` */
  function NotchRows(fghz: seq<real>): seq<nat> {
    Where(|fghz|, (f: nat) => f < |fghz| && IsNotch(fghz[f]))
  }

  lemma NotchRowsMember(fghz: seq<real>, f: nat)
    ensures f in NotchRows(fghz) <==> f < |fghz| && IsNotch(fghz[f])
    ensures forall i :: 0 <= i < |NotchRows(fghz)| ==> NotchRows(fghz)[i] < |fghz|
  {
  }

  /** `if len(bad) > 0: subspec[bad] = np.nan` */
  method MaskNotchRows(subspec: array2<Cell>, fghz: seq<real>)
    requires subspec.Length0 == |fghz|
    modifies subspec
    ensures forall f, t :: 0 <= f < subspec.Length0 && 0 <= t < subspec.Length1 ==>
      subspec[f, t] == if IsNotch(fghz[f]) then NaN else old(subspec[f, t])
  {
    var bad := NotchRows(fghz);
    NotchRowsMember(fghz, 0);
    if |bad| > 0 {
      forall i, t | 0 <= i < |bad| && 0 <= t < subspec.Length1 {
        subspec[bad[i], t] := NaN;
      }
    }
    forall f, t | 0 <= f < subspec.Length0 && 0 <= t < subspec.Length1
      ensures subspec[f, t] == if IsNotch(fghz[f]) then NaN else old(subspec[f, t])
    {
      NotchRowsMember(fghz, f);
      if IsNotch(fghz[f]) {
        var i :| 0 <= i < |bad| && bad[i] == f;
      }
    }
  }

  // ---------------------------------------------------------------- time repair

  /** `np.round((jd[b+1] - jd[b]) * 86400)`: step b in whole seconds. */
  function StepSeconds(jd: seq<real>, b: nat): int
    requires b + 1 < |jd|
  {
    RoundHalfEven((jd[b + 1] - jd[b]) * 86400.0)
  }

  /** `bad, = np.where(np.round((jd[1:] - jd[:-1]) * 86400) < 1)`:
      the steps that round below one second, from the original stamps. */
  function BadSteps(jd: seq<real>): seq<nat> {
    Where(if |jd| == 0 then 0 else |jd| - 1, (b: nat) => b + 1 < |jd| && StepSeconds(jd, b) < 1)
  }

  lemma BadStepsMember(jd: seq<real>, b: nat)
    ensures b in BadSteps(jd) <==> b + 1 < |jd| && StepSeconds(jd, b) < 1
    ensures Ascending(BadSteps(jd)) && forall i :: 0 <= i < |BadSteps(jd)| ==> BadSteps(jd)[i] + 1 < |jd|
  {
  }

  /** One iteration `jd[b+1] = (jd[b] + jd[b+2]) / 2.`; it does nothing when
      `jd[b+2]` does not exist (there the loop raises). */
  function RepairStep(jd: seq<real>, b: nat): (r: seq<real>)
    ensures |r| == |jd|
  {
    if b + 2 < |jd| then jd[b + 1 := (jd[b] + jd[b + 2]) / 2.0] else jd
  }

  /** The stamps after the repair loop has run over `bad` in order. */
  function Repaired(jd: seq<real>, bad: seq<nat>): (r: seq<real>)
    ensures |r| == |jd|
  {
    if bad == [] then jd else RepairStep(Repaired(jd, bad[..|bad| - 1]), bad[|bad| - 1])
  }

  /** The loop ran to the end: the last step of the series is not a bad one. */
  predicate RepairInRange(jd: seq<real>) {
    |jd| < 2 || StepSeconds(jd, |jd| - 2) >= 1
  }

  lemma RepairedPrefix(jd: seq<real>, bad: seq<nat>, i: nat)
    requires i < |bad|
    ensures Repaired(jd, bad[..i + 1]) == RepairStep(Repaired(jd, bad[..i]), bad[i])
  {
    assert bad[..i + 1][..i] == bad[..i];
  }

  /** Running the loop over a then over b is running it over a + b. */
  lemma {:induction false} RepairedAppend(jd: seq<real>, a: seq<nat>, b: seq<nat>)
    ensures Repaired(jd, a + b) == Repaired(Repaired(jd, a), b)
    decreases |b|
  {
    if b == [] {
      assert a + b == a;
    } else {
      assert (a + b)[..|a + b| - 1] == a + b[..|b| - 1];
      RepairedAppend(jd, a, b[..|b| - 1]);
    }
  }

  /** Only the entries right after a bad step change: jd[p] stays unless p == b + 1 for a b in bad. */
  lemma {:induction false} RepairedUnchanged(jd: seq<real>, bad: seq<nat>, p: nat)
    requires p < |jd| && forall q :: 0 <= q < |bad| ==> bad[q] + 1 != p
    ensures Repaired(jd, bad)[p] == jd[p]
  {
    if bad != [] {
      RepairedUnchanged(jd, bad[..|bad| - 1], p);
    }
  }

  /** The repair is sequential: the entry after bad step b becomes the mean of
      the entry before it -- as already repaired -- and the original entry two
      further on. */
  lemma RepairedAt(jd: seq<real>, bad: seq<nat>, i: nat)
    requires Ascending(bad) && i < |bad| && bad[i] + 2 < |jd|
    ensures Repaired(jd, bad)[bad[i] + 1] == (Repaired(jd, bad)[bad[i]] + jd[bad[i] + 2]) / 2.0
  {
    var b := bad[i];
    var pre, post := bad[..i], bad[i + 1..];
    assert bad == pre + [b] + post;
    var before := Repaired(jd, pre);
    var after := RepairStep(before, b);
    RepairedAppend(jd, pre, [b]);
    assert Repaired(jd, pre + [b]) == after by {
      assert (pre + [b])[..|pre + [b]| - 1] == pre;
    }
    RepairedAppend(jd, pre + [b], post);
    RepairedUnchanged(jd, pre, b + 2);
    RepairedUnchanged(after, post, b + 1);
    RepairedUnchanged(after, post, b);
  }

  /** An isolated bad step (the one before it is fine) takes the mean of the
      two original neighbours. */
  lemma RepairedIsolated(jd: seq<real>, bad: seq<nat>, i: nat)
    requires Ascending(bad) && i < |bad| && bad[i] + 2 < |jd|
    requires forall q :: 0 <= q < |bad| ==> bad[q] + 1 != bad[i]
    ensures Repaired(jd, bad)[bad[i] + 1] == (jd[bad[i]] + jd[bad[i] + 2]) / 2.0
  {
    RepairedAt(jd, bad, i);
    RepairedUnchanged(jd, bad, bad[i]);
  }

  /** `fix_times(jd)`: the bad steps are found once, from the original stamps;
      then `jd[b+1]` is overwritten in place for each of them in order. When
      the last step of the series is bad, `jd[b+2]` does not exist: the loop
      stops there (ok == false) with every earlier repair already made. */
  method FixTimes(jd: array<real>) returns (ok: bool)
    modifies jd
    ensures jd[..] == Repaired(old(jd[..]), BadSteps(old(jd[..])))
    ensures ok <==> RepairInRange(old(jd[..]))
  {
    ghost var s := jd[..];
    var bad := BadSteps(jd[..]);
    var stop;
    ok, stop := RepairLoop(jd, bad);
    if !ok {
      RepairedPrefix(s, bad, stop);
      LastBadStep(s, stop);
    } else {
      assert bad[..|bad|] == bad;
      CompletedInRange(s);
    }
  }

  /** The loop of `fix_times` over a given list of steps: it stops at the
      first step b whose `jd[b+2]` does not exist. */
  method RepairLoop(jd: array<real>, bad: seq<nat>) returns (ok: bool, stop: nat)
    modifies jd
    ensures stop <= |bad| && (ok <==> stop == |bad|)
    ensures jd[..] == Repaired(old(jd[..]), bad[..stop])
    ensures stop < |bad| ==> bad[stop] + 2 >= jd.Length
    ensures forall q :: 0 <= q < stop ==> bad[q] + 2 < jd.Length
  {
    ghost var s := jd[..];
    for i := 0 to |bad|
      invariant jd[..] == Repaired(s, bad[..i])
      invariant forall q :: 0 <= q < i ==> bad[q] + 2 < jd.Length
    {
      var b := bad[i];
      if b + 2 >= jd.Length {
        return false, i;
      }
      RepairedPrefix(s, bad, i);
      ghost var prev := jd[..];
      var mid := (jd[b] + jd[b + 2]) / 2.0;
      assert RepairStep(prev, b) == prev[b + 1 := mid];
      jd[b + 1] := mid;
      assert jd[..] == prev[b + 1 := mid];
    }
    return true, |bad|;
  }

  /** When every bad step has its `jd[b+2]`, the last step of the series is not bad. */
  lemma CompletedInRange(s: seq<real>)
    requires forall q :: 0 <= q < |BadSteps(s)| ==> BadSteps(s)[q] + 2 < |s|
    ensures RepairInRange(s)
  {
    if |s| >= 2 {
      BadStepsMember(s, |s| - 2);
      assert (|s| - 2) !in BadSteps(s);
    }
  }

  /** A bad step whose `jd[b+2]` is missing is the last step of the series,
      and so the last bad step: the loop has nothing left to do after it. */
  lemma LastBadStep(s: seq<real>, i: nat)
    requires i < |BadSteps(s)| && BadSteps(s)[i] + 2 >= |s|
    ensures i == |BadSteps(s)| - 1 && !RepairInRange(s)
    ensures BadSteps(s)[..i + 1] == BadSteps(s)
    ensures RepairStep(Repaired(s, BadSteps(s)[..i]), BadSteps(s)[i]) == Repaired(s, BadSteps(s)[..i])
  {
    var bad := BadSteps(s);
    BadStepsMember(s, bad[i]);
    assert bad[i] in bad;
  }

  // ---------------------------------------------------------------- gap columns

  /** Column k precedes a gap: `np.round((time[k+1] - time[k]) * 86400) > 1`. */
  predicate IsGap(time: seq<real>, k: nat) {
    k + 1 < |time| && StepSeconds(time, k) > 1
  }

  function GapColumns(time: seq<real>): seq<nat> {
    Where(if |time| == 0 then 0 else |time| - 1, (k: nat) => IsGap(time, k))
  }

  lemma GapColumnsMember(time: seq<real>, k: nat)
    ensures k in GapColumns(time) <==> IsGap(time, k)
    ensures forall i :: 0 <= i < |GapColumns(time)| ==> GapColumns(time)[i] + 1 < |time|
  {
  }

  /** `for gap in gaps: subspec[:, gap] = np.nan`. `np.where` returns a
      one-element tuple, so the loop body runs once, on the whole index array. */
  method MaskGapColumns(subspec: array2<Cell>, time: seq<real>)
    requires subspec.Length1 == |time|
    modifies subspec
    ensures forall f, t :: 0 <= f < subspec.Length0 && 0 <= t < subspec.Length1 ==>
      subspec[f, t] == if IsGap(time, t) then NaN else old(subspec[f, t])
  {
    var gaps := GapColumns(time);
    GapColumnsMember(time, 0);
    forall f, i | 0 <= f < subspec.Length0 && 0 <= i < |gaps| {
      subspec[f, gaps[i]] := NaN;
    }
    forall f, t | 0 <= f < subspec.Length0 && 0 <= t < subspec.Length1
      ensures subspec[f, t] == if IsGap(time, t) then NaN else old(subspec[f, t])
    {
      GapColumnsMember(time, t);
      if IsGap(time, t) {
        var i :| 0 <= i < |gaps| && gaps[i] == t;
      }
    }
  }

  // ---------------------------------------------------------------- make_plot

  /** Cell (f, t) of the final `subspec`: NaN on a notched row or before a
      gap of the repaired time axis, the background-subtracted value otherwise. */
  function FinalCell(spec: seq<seq<Cell>>, time: seq<real>, fghz: seq<real>,
                     bgidx: Option<Window>, bg2idx: Option<Window>, f: nat, t: nat): Cell
    requires Shaped(spec, |time|) && |fghz| == |spec| && f < |spec| && t < |time|
    requires BackgroundDefined(time, bgidx, bg2idx)
  {
    if IsNotch(fghz[f]) || IsGap(Repaired(time, BadSteps(time)), t) then NaN
    else SubtractedAt(spec, time, bgidx, bg2idx, f, t)
  }

  /** The two files `make_plot` writes: the image and the FITS spectrum. */
  datatype PlotFiles = PlotFiles(image: string, fits: string)

  /** The data path of `make_plot`: subtract the background, mask the notch
      rows, repair the time stamps in place (they belong to the caller's
      `out['time']`), mask the gap columns, and name the image and FITS files
      from the flare ID. `isoOf` stands for `Time(jd, format='jd').iso`. */
  method MakePlot(spec: seq<seq<Cell>>, time: array<real>, fghz: seq<real>,
                  bgidx: Option<Window>, bg2idx: Option<Window>,
                  name: Option<string>, tpk: Option<string>, isoOf: real -> string)
    returns (r: Result<PlotFiles, PlotFault>, subspec: array2<Cell>)
    requires Shaped(spec, time.Length) && |fghz| == |spec|
    modifies time
    ensures r.Failure? <==>
      time.Length == 0 || !BackgroundDefined(old(time[..]), bgidx, bg2idx) || !RepairInRange(old(time[..]))
    ensures time.Length == 0 || !BackgroundDefined(old(time[..]), bgidx, bg2idx) ==> time[..] == old(time[..])
    ensures time.Length > 0 && BackgroundDefined(old(time[..]), bgidx, bg2idx) ==>
      time[..] == Repaired(old(time[..]), BadSteps(old(time[..])))
    ensures r.Success? ==> fresh(subspec) && subspec.Length0 == |spec| && subspec.Length1 == time.Length
    ensures r.Success? ==> forall f, t :: 0 <= f < |spec| && 0 <= t < time.Length ==>
      subspec[f, t] == FinalCell(spec, old(time[..]), fghz, bgidx, bg2idx, f, t)
    ensures r.Success? ==>
      var id := FileNames.FlareId(FileNames.PeakTime(tpk, isoOf(old(time[0]))));
      r.value == PlotFiles(FileNames.PlotName(name, id), FileNames.FitsName(id))
  {
    subspec := new Cell[0, 0];
    if time.Length == 0 {
      return Failure(EmptyTimeAxis), subspec;
    }
    ghost var time0 := time[..];
    if !BackgroundDefined(time[..], bgidx, bg2idx) {
      return Failure(BackgroundIndex), subspec;
    }
    subspec := SubtractBackground(spec, time[..], bgidx, bg2idx);
    MaskNotchRows(subspec, fghz);
    assert forall f, t :: 0 <= f < |spec| && 0 <= t < time.Length ==>
      subspec[f, t] == if IsNotch(fghz[f]) then NaN else SubtractedAt(spec, time0, bgidx, bg2idx, f, t);
    var ok := FixTimes(time);
    if !ok {
      return Failure(RepairIndex), subspec;
    }
    ghost var repaired := time[..];
    MaskGapColumns(subspec, time[..]);
    forall f, t | 0 <= f < |spec| && 0 <= t < time.Length
      ensures subspec[f, t] == FinalCell(spec, time0, fghz, bgidx, bg2idx, f, t)
    {
      assert repaired == Repaired(time0, BadSteps(time0));
    }
    assert time[0] == time0[0] by {
      RepairedUnchanged(time0, BadSteps(time0), 0);
    }
    var peak := FileNames.PeakTime(tpk, isoOf(time[0]));
    var id := FileNames.FlareId(peak);
    var image := FileNames.PlotName(name, id);
    var fits := FileNames.FitsName(id);
    return Success(PlotFiles(image, fits)), subspec;
  }
}
