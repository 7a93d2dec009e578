/** The per-frame lane localiser of `src/detection.py`: a column strip of the
    binary mask above the wheel point, a per-row histogram of foreground
    pixels, maximal runs of strong rows, a length/intensity filter, a choice
    of one run (temporal continuity first, then the strongest run nearest the
    strip's middle) and the row the configured point mode takes from it.

    The strip, histogram, filter and choice (ChosenRun) are shared verbatim
    by the copy in `scripts/run_measurement.py`; module RunMeasurement adds
    that copy's own row rule. */
module Detection {
  import opened Common

  /** A binary mask: `width` columns and one sequence of pixel values per row
      (255 is foreground). */
  datatype Mask = Mask(width: nat, pixels: seq<seq<int>>)

  /** The mask is a rectangular array, as a numpy image is. */
  predicate WellFormed(m: Mask)
  {
    forall i :: 0 <= i < |m.pixels| ==> |m.pixels[i]| == m.width
  }

  // ---------------------------------------------------------------------
  // The strip and its histogram

  /** Rows of the strip: `0 .. wheelY-1`, clipped to the image as a numpy
      slice is. */
  function StripRows(m: Mask, wheelY: nat): nat
  {
    if wheelY <= |m.pixels| then wheelY else |m.pixels|
  }

  /** First column of the strip, `max(0, wheel_x - COLUMN_WIDTH)`. */
  function StripLeft(wheelX: nat, columnWidth: nat): nat
  {
    if wheelX >= columnWidth then wheelX - columnWidth else 0
  }

  /** One past the last column, `min(width, wheel_x + COLUMN_WIDTH)`. */
  function StripRight(m: Mask, wheelX: nat, columnWidth: nat): nat
  {
    if m.width <= wheelX + columnWidth then m.width else wheelX + columnWidth
  }

  /** `strip.size == 0`: no rows, or no columns between the two bounds. */
  predicate StripEmpty(m: Mask, wheelX: nat, wheelY: nat, columnWidth: nat)
  {
    StripRows(m, wheelY) == 0 || StripRight(m, wheelX, columnWidth) <= StripLeft(wheelX, columnWidth)
  }

  /** Number of pixels equal to 255 in `row[lo..hi]`. */
  function CountWhite(row: seq<int>, lo: nat, hi: nat): nat
    requires lo <= hi <= |row|
    decreases hi - lo
  {
    if hi == lo then 0
    else CountWhite(row, lo, hi - 1) + (if row[hi - 1] == 255 then 1 else 0)
  }

  /** The set of foreground columns of `row` in `[lo, hi)`. */
  function WhiteColumns(row: seq<int>, lo: nat, hi: nat): set<nat>
    requires lo <= hi <= |row|
  {
    set j: nat | lo <= j < hi && row[j] == 255
  }

  lemma {:induction false} CountWhiteIsCardinality(row: seq<int>, lo: nat, hi: nat)
    requires lo <= hi <= |row|
    ensures CountWhite(row, lo, hi) == |WhiteColumns(row, lo, hi)|
    decreases hi - lo
  {
    if hi > lo {
      CountWhiteIsCardinality(row, lo, hi - 1);
      var last: set<nat> := if row[hi - 1] == 255 then {hi - 1} else {};
      assert WhiteColumns(row, lo, hi) == WhiteColumns(row, lo, hi - 1) + last;
      assert WhiteColumns(row, lo, hi - 1) !! last;
    } else {
      assert WhiteColumns(row, lo, hi) == {};
    }
  }

  /** `np.sum(strip == 255, axis=1)`: one count per strip row. */
  function Histogram(m: Mask, wheelX: nat, wheelY: nat, columnWidth: nat): (h: seq<nat>)
    requires WellFormed(m) && !StripEmpty(m, wheelX, wheelY, columnWidth)
    ensures |h| == StripRows(m, wheelY) > 0
  {
    var lo, hi := StripLeft(wheelX, columnWidth), StripRight(m, wheelX, columnWidth);
    seq(StripRows(m, wheelY), i requires 0 <= i < StripRows(m, wheelY) => CountWhite(m.pixels[i], lo, hi))
  }

  /** Histogram entry i counts the foreground pixels of image row i between
      the strip's column bounds, for the rows above the wheel only. */
  lemma HistogramCountsStripPixels(m: Mask, wheelX: nat, wheelY: nat, columnWidth: nat)
    requires WellFormed(m) && !StripEmpty(m, wheelX, wheelY, columnWidth)
    ensures var h := Histogram(m, wheelX, wheelY, columnWidth);
      && |h| == Min(wheelY, |m.pixels|)
      && forall i :: 0 <= i < |h| ==>
           h[i] == |WhiteColumns(m.pixels[i], Max(0, wheelX - columnWidth), Min(m.width, wheelX + columnWidth))|
  {
    var h := Histogram(m, wheelX, wheelY, columnWidth);
    forall i | 0 <= i < |h|
      ensures h[i] == |WhiteColumns(m.pixels[i], Max(0, wheelX - columnWidth), Min(m.width, wheelX + columnWidth))|
    {
      CountWhiteIsCardinality(m.pixels[i], StripLeft(wheelX, columnWidth), StripRight(m, wheelX, columnWidth));
    }
  }

  /** `histogram.max()`. */
  function SeqMax(h: seq<nat>): (mx: nat)
    requires |h| > 0
    ensures mx in h
    ensures forall i :: 0 <= i < |h| ==> h[i] <= mx
  {
    if |h| == 1 then h[0]
    else
      var m := SeqMax(h[..|h| - 1]);
      if h[|h| - 1] > m then h[|h| - 1] else m
  }

  // ---------------------------------------------------------------------
  // Runs of strong rows

  /** Row i reaches 20% of the peak: `h[i] >= 0.2 * max`, kept exact. */
  predicate Above(h: seq<nat>, peak: nat, i: int)
  {
    0 <= i < |h| && 5 * h[i] >= peak
  }

  /** `sum(h[s..e])`. */
  function Sum(h: seq<nat>, s: nat, e: nat): nat
    requires s <= e <= |h|
    decreases e - s
  {
    if e == s then 0 else Sum(h, s, e - 1) + h[e - 1]
  }

  /** A candidate band: first row, last row, number of rows, summed counts
      (`(start, end, length, total)` in the source). */
  datatype Run = Run(start: int, end: int, length: int, total: int)

  /** The run record the source builds for rows `s..e`. */
  function MkRun(h: seq<nat>, s: nat, e: nat): Run
    requires s <= e < |h|
  {
    Run(s, e, e - s + 1, Sum(h, s, e + 1))
  }

  /** The length/intensity filter every recorded run must pass. */
  predicate Kept(r: Run, minLaneWidth: int)
  {
    r.length >= minLaneWidth && r.total >= 2 * minLaneWidth
  }

  /** Rows `s..e` form a maximal block of rows above the threshold. */
  predicate IsMaximalRun(h: seq<nat>, peak: nat, s: int, e: int)
  {
    && 0 <= s <= e < |h|
    && (forall i :: s <= i <= e ==> Above(h, peak, i))
    && (s == 0 || !Above(h, peak, s - 1))
    && (e == |h| - 1 || !Above(h, peak, e + 1))
  }

  /** Each run spans at least one row, and the runs are disjoint and listed
      top to bottom. */
  predicate Ordered(rs: seq<Run>)
  {
    && (forall k :: 0 <= k < |rs| ==> rs[k].start <= rs[k].end)
    && (forall j, k :: 0 <= j < k < |rs| ==> rs[j].end < rs[k].start)
  }

  /** What closing the run `s..e` appends: the run if it passes the filter. */
  function Emit(h: seq<nat>, minLaneWidth: int, s: nat, e: nat): seq<Run>
    requires s <= e < |h|
  {
    var r := MkRun(h, s, e);
    if Kept(r, minLaneWidth) then [r] else []
  }

  /** The runs the scan over rows `i..` appends, when `open` holds the start
      of the run in progress (if any). */
  function RunsFrom(h: seq<nat>, peak: nat, minLaneWidth: int, i: nat, open: Option<nat>): seq<Run>
    requires i <= |h|
    requires open.Some? ==> open.value < i
    decreases |h| - i
  {
    if i == |h| then
      (match open
       case None => []
       case Some(s) => Emit(h, minLaneWidth, s, |h| - 1))
    else if Above(h, peak, i) && open.None? then
      RunsFrom(h, peak, minLaneWidth, i + 1, Some(i))
    else if !Above(h, peak, i) && open.Some? then
      Emit(h, minLaneWidth, open.value, i - 1) + RunsFrom(h, peak, minLaneWidth, i + 1, None)
    else
      RunsFrom(h, peak, minLaneWidth, i + 1, open)
  }

  /** `continuous_peaks`: every run the scan of the whole histogram keeps. */
  function KeptRuns(h: seq<nat>, peak: nat, minLaneWidth: int): seq<Run>
  {
    RunsFrom(h, peak, minLaneWidth, 0, None)
  }

  /** What the scan knows when it reaches row i with `open`. */
  predicate ScanState(h: seq<nat>, peak: nat, i: nat, open: Option<nat>)
  {
    && i <= |h|
    && (open.None? ==> i == 0 || !Above(h, peak, i - 1))
    && (open.Some? ==>
          && open.value < i
          && (forall j :: open.value <= j < i ==> Above(h, peak, j))
          && (open.value == 0 || !Above(h, peak, open.value - 1)))
  }

  /** The first row a run found from this state can start at. */
  function LowestStart(i: nat, open: Option<nat>): nat
  {
    if open.Some? then open.value else i
  }

  /** A recorded run starting at row `lo` or later: a maximal block of
      strong rows, with its own length and total, that passes the filter. */
  predicate SoundRun(h: seq<nat>, peak: nat, minLaneWidth: int, lo: int, r: Run)
  {
    && lo <= r.start
    && IsMaximalRun(h, peak, r.start, r.end)
    && r == MkRun(h, r.start, r.end)
    && Kept(r, minLaneWidth)
  }

  lemma {:induction false} RunsFromSound(h: seq<nat>, peak: nat, minLaneWidth: int, i: nat, open: Option<nat>)
    requires ScanState(h, peak, i, open)
    ensures var rs := RunsFrom(h, peak, minLaneWidth, i, open);
      && Ordered(rs)
      && forall r :: r in rs ==> SoundRun(h, peak, minLaneWidth, LowestStart(i, open), r)
    decreases |h| - i
  {
    if i == |h| {
    } else if Above(h, peak, i) && open.None? {
      RunsFromSound(h, peak, minLaneWidth, i + 1, Some(i));
    } else if !Above(h, peak, i) && open.Some? {
      RunsFromSound(h, peak, minLaneWidth, i + 1, None);
      var head := Emit(h, minLaneWidth, open.value, i - 1);
      var tail := RunsFrom(h, peak, minLaneWidth, i + 1, None);
      assert RunsFrom(h, peak, minLaneWidth, i, open) == head + tail;
      ClosedRunFirst(h, peak, minLaneWidth, open.value, i, tail);
    } else {
      RunsFromSound(h, peak, minLaneWidth, i + 1, open);
    }
  }

  /** The run closed at row i, if kept, is a sound run and comes before
      every run found after row i. */
  lemma ClosedRunFirst(h: seq<nat>, peak: nat, minLaneWidth: int, s: nat, i: nat, tail: seq<Run>)
    requires s < i < |h| && !Above(h, peak, i)
    requires forall j :: s <= j < i ==> Above(h, peak, j)
    requires s == 0 || !Above(h, peak, s - 1)
    requires Ordered(tail)
    requires forall r :: r in tail ==> SoundRun(h, peak, minLaneWidth, i + 1, r)
    ensures var rs := Emit(h, minLaneWidth, s, i - 1) + tail;
      && Ordered(rs)
      && forall r :: r in rs ==> SoundRun(h, peak, minLaneWidth, s, r)
  {
    var head := Emit(h, minLaneWidth, s, i - 1);
    assert forall r :: r in head ==> r == MkRun(h, s, i - 1);
    assert forall r :: r in head ==> SoundRun(h, peak, minLaneWidth, s, r) && r.end < i;
    assert forall r :: r in tail ==> SoundRun(h, peak, minLaneWidth, s, r) && i <= r.start;
    ConcatOrdered(head, tail, i);
  }

  /** Two ordered lists separated by a row stay ordered end to end. */
  lemma ConcatOrdered(head: seq<Run>, tail: seq<Run>, bound: int)
    requires Ordered(head) && Ordered(tail)
    requires forall r :: r in head ==> r.end < bound
    requires forall r :: r in tail ==> bound <= r.start
    ensures Ordered(head + tail)
  {
    var rs := head + tail;
    forall j, k | 0 <= j < k < |rs|
      ensures rs[j].end < rs[k].start
    {
      if k >= |head| {
        assert rs[k] == tail[k - |head|];
        if j < |head| {
          assert rs[j] == head[j];
        } else {
          assert rs[j] == tail[j - |head|];
        }
      }
    }
  }

  lemma {:induction false} RunsFromComplete(h: seq<nat>, peak: nat, minLaneWidth: int, i: nat, open: Option<nat>)
    requires ScanState(h, peak, i, open)
    ensures forall s, e ::
      (LowestStart(i, open) <= s && IsMaximalRun(h, peak, s, e) && Kept(MkRun(h, s, e), minLaneWidth)
       ==> MkRun(h, s, e) in RunsFrom(h, peak, minLaneWidth, i, open))
    decreases |h| - i
  {
    var rs := RunsFrom(h, peak, minLaneWidth, i, open);
    if i == |h| {
      forall s, e | LowestStart(i, open) <= s && IsMaximalRun(h, peak, s, e) && Kept(MkRun(h, s, e), minLaneWidth)
        ensures MkRun(h, s, e) in rs
      {
        // Only the open run can still start here (row s - 1 would be strong
        // otherwise), and it runs to the last row.
        assert s > open.value ==> Above(h, peak, s - 1);
      }
    } else if Above(h, peak, i) && open.None? {
      RunsFromComplete(h, peak, minLaneWidth, i + 1, Some(i));
    } else if !Above(h, peak, i) && open.Some? {
      RunsFromComplete(h, peak, minLaneWidth, i + 1, None);
      var head := Emit(h, minLaneWidth, open.value, i - 1);
      var tail := RunsFrom(h, peak, minLaneWidth, i + 1, None);
      assert rs == head + tail;
      forall s, e | LowestStart(i, open) <= s && IsMaximalRun(h, peak, s, e) && Kept(MkRun(h, s, e), minLaneWidth)
        ensures MkRun(h, s, e) in rs
      {
        // A run starting inside the open one would follow a strong row, and
        // row i is weak, so s is the open start or lies past row i.
        assert open.value < s <= i ==> Above(h, peak, s - 1) || !Above(h, peak, s);
        // The open run closes at row i - 1, the row before the first weak one.
        assert s == open.value && e < i - 1 ==> Above(h, peak, e + 1);
        assert s == open.value ==> e <= i - 1 || Above(h, peak, i);
        if s == open.value {
          assert MkRun(h, s, e) in head;
        } else {
          assert MkRun(h, s, e) in tail;
        }
      }
    } else if open.None? {
      RunsFromComplete(h, peak, minLaneWidth, i + 1, None);
      forall s, e | LowestStart(i, open) <= s && IsMaximalRun(h, peak, s, e) && Kept(MkRun(h, s, e), minLaneWidth)
        ensures MkRun(h, s, e) in rs
      {
        assert s == i ==> !Above(h, peak, i);
      }
    } else {
      RunsFromComplete(h, peak, minLaneWidth, i + 1, open);
    }
  }

  /** The runs the scan keeps are exactly the maximal blocks of strong rows
      that pass the filter, each with its length and total, top to bottom. */
  lemma KeptRunsCharacterised(h: seq<nat>, peak: nat, minLaneWidth: int)
    ensures var rs := KeptRuns(h, peak, minLaneWidth);
      && Ordered(rs)
      && (forall k :: 0 <= k < |rs| ==>
            && IsMaximalRun(h, peak, rs[k].start, rs[k].end)
            && rs[k].length == rs[k].end - rs[k].start + 1
            && rs[k].total == Sum(h, rs[k].start, rs[k].end + 1)
            && Kept(rs[k], minLaneWidth))
      && (forall s, e :: IsMaximalRun(h, peak, s, e) && Kept(MkRun(h, s, e), minLaneWidth)
            ==> MkRun(h, s, e) in rs)
  {
    RunsFromSound(h, peak, minLaneWidth, 0, None);
    RunsFromComplete(h, peak, minLaneWidth, 0, None);
    var rs := KeptRuns(h, peak, minLaneWidth);
    forall k | 0 <= k < |rs|
      ensures SoundRun(h, peak, minLaneWidth, 0, rs[k])
    {
      assert rs[k] in rs;
    }
  }

  /** The scan of lines 27-45: one pass over the rows, opening a run at the
      first strong row and closing it at the next weak row or at the end. */
  method ExtractRuns(h: seq<nat>, peak: nat, minLaneWidth: int) returns (runs: seq<Run>)
    ensures runs == KeptRuns(h, peak, minLaneWidth)
  {
    runs := [];
    var start: Option<nat> := None;
    for i := 0 to |h|
      invariant start.Some? ==> start.value < i
      invariant runs + RunsFrom(h, peak, minLaneWidth, i, start) == KeptRuns(h, peak, minLaneWidth)
    {
      var isPeak := 5 * h[i] >= peak;
      if isPeak && start.None? {
        start := Some(i);
      } else if !isPeak && start.Some? {
        var s, end := start.value, i - 1;
        var length := end - s + 1;
        var total := Sum(h, s, end + 1);
        if length >= minLaneWidth && total >= minLaneWidth * 2 {
          runs := runs + [Run(s, end, length, total)];
        }
        start := None;
      }
    }
    if start.Some? {
      var s, end := start.value, |h| - 1;
      var length := end - s + 1;
      var total := Sum(h, s, end + 1);
      if length >= minLaneWidth && total >= minLaneWidth * 2 {
        runs := runs + [Run(s, end, length, total)];
      }
    }
  }

  // ---------------------------------------------------------------------
  // Choosing one run

  /** The run's centre `(s+e)/2` is within MAX_JUMP rows of the previous row
      (doubled so that it stays in integers). */
  predicate Near(r: Run, prevRow: int, maxJump: int)
  {
    Abs(r.start + r.end - 2 * prevRow) <= 2 * maxJump
  }

  /** `[p for p in continuous_peaks if ...]`. */
  function Candidates(runs: seq<Run>, prevRow: int, maxJump: int): (c: seq<Run>)
    ensures forall r :: r in c <==> r in runs && Near(r, prevRow, maxJump)
    ensures Ordered(runs) ==> Ordered(c)
  {
    if |runs| == 0 then []
    else
      var rest := Candidates(runs[1..], prevRow, maxJump);
      assert forall r :: r in runs <==> r == runs[0] || r in runs[1..];
      OrderedPrepend(runs, rest);
      if Near(runs[0], prevRow, maxJump) then [runs[0]] + rest else rest
  }

  /** Keeping the first run in front of runs chosen from the rest keeps the
      list ordered. */
  lemma OrderedPrepend(runs: seq<Run>, rest: seq<Run>)
    requires |runs| > 0
    requires forall r :: r in rest ==> r in runs[1..]
    requires Ordered(runs[1..]) ==> Ordered(rest)
    ensures Ordered(runs) ==> Ordered(rest) && Ordered([runs[0]] + rest)
  {
    if Ordered(runs) {
      var tail := runs[1..];
      assert Ordered(tail);
      forall r | r in rest
        ensures runs[0].end < r.start
      {
        var k :| 0 <= k < |tail| && tail[k] == r;
        assert runs[k + 1] == r;
      }
      var c := [runs[0]] + rest;
      forall j, k | 0 <= j < k < |c|
        ensures c[j].end < c[k].start
      {
        assert c[k] == rest[k - 1] && c[k] in rest;
        if j > 0 {
          assert c[j] == rest[j - 1];
        }
      }
    }
  }

  /** A `max` key: compared lexicographically, as Python compares tuples. */
  datatype Key = Key(primary: int, secondary: int)

  predicate KeyLess(a: Key, b: Key)
  {
    a.primary < b.primary || (a.primary == b.primary && a.secondary < b.secondary)
  }

  /** Python's `max(xs, key=...)`: the index of the first element whose key
      no other key exceeds. */
  function FirstArgMax(keys: seq<Key>): (k: nat)
    requires |keys| > 0
    ensures k < |keys|
    ensures forall j :: 0 <= j < |keys| ==> !KeyLess(keys[k], keys[j])
    ensures forall j :: 0 <= j < k ==> KeyLess(keys[j], keys[k])
  {
    if |keys| == 1 then 0
    else
      var k := FirstArgMax(keys[..|keys| - 1]);
      if KeyLess(keys[k], keys[|keys| - 1]) then |keys| - 1 else k
  }

  /** The continuity key: the run's total alone. */
  function ContinuityKey(r: Run): Key
  {
    Key(r.total, 0)
  }

  /** The fallback key `(total, -|centre - len/2|)`, doubled. */
  function FallbackKey(r: Run, rows: int): Key
  {
    Key(r.total, -(Abs(r.start + r.end - rows) as int))
  }

  function ContinuityKeys(rs: seq<Run>): (keys: seq<Key>)
    ensures |keys| == |rs| && forall i :: 0 <= i < |rs| ==> keys[i] == ContinuityKey(rs[i])
  {
    seq(|rs|, i requires 0 <= i < |rs| => ContinuityKey(rs[i]))
  }

  function FallbackKeys(rs: seq<Run>, rows: int): (keys: seq<Key>)
    ensures |keys| == |rs| && forall i :: 0 <= i < |rs| ==> keys[i] == FallbackKey(rs[i], rows)
  {
    seq(|rs|, i requires 0 <= i < |rs| => FallbackKey(rs[i], rows))
  }

  /** Some kept run lies within the jump of the previous detection. */
  predicate HasNearRun(runs: seq<Run>, prev: Option<Point>, maxJump: int)
  {
    prev.Some? && exists r :: r in runs && Near(r, prev.value.y, maxJump)
  }

  /** Lines 49-63: continuity with the previous detection, else the fallback. */
  function ChooseRun(runs: seq<Run>, prev: Option<Point>, maxJump: int, rows: int): (best: Run)
    requires |runs| > 0
    ensures best in runs
  {
    var cands := if prev.Some? then Candidates(runs, prev.value.y, maxJump) else [];
    if |cands| > 0 then cands[FirstArgMax(ContinuityKeys(cands))]
    else runs[FirstArgMax(FallbackKeys(runs, rows))]
  }

  /** Over disjoint runs listed top to bottom, the first maximal key beats
      the key of every run above it. */
  lemma FirstMaxIsTopmost(rs: seq<Run>, keys: seq<Key>, k: nat)
    requires Ordered(rs) && |keys| == |rs| && k < |rs|
    requires forall j :: 0 <= j < k ==> KeyLess(keys[j], keys[k])
    ensures forall j :: 0 <= j < |rs| && rs[j].start < rs[k].start ==> KeyLess(keys[j], keys[k])
  {
  }

  /** With a previous detection and a kept run near it, the choice is the
      near run of highest total, the topmost one on ties. */
  lemma ContinuityChoice(runs: seq<Run>, prev: Option<Point>, maxJump: int, rows: int)
    requires |runs| > 0 && Ordered(runs) && HasNearRun(runs, prev, maxJump)
    ensures var best := ChooseRun(runs, prev, maxJump, rows);
      && best in runs && Near(best, prev.value.y, maxJump)
      && (forall r :: r in runs && Near(r, prev.value.y, maxJump) ==> r.total <= best.total)
      && (forall r :: r in runs && Near(r, prev.value.y, maxJump) && r.start < best.start ==> r.total < best.total)
  {
    var cands := Candidates(runs, prev.value.y, maxJump);
    var r0 :| r0 in runs && Near(r0, prev.value.y, maxJump);
    assert r0 in cands;
    var keys := ContinuityKeys(cands);
    var k := FirstArgMax(keys);
    var best := cands[k];
    assert ChooseRun(runs, prev, maxJump, rows) == best;
    FirstMaxIsTopmost(cands, keys, k);
    forall r | r in runs && Near(r, prev.value.y, maxJump)
      ensures r.total <= best.total
      ensures r.start < best.start ==> r.total < best.total
    {
      var j :| 0 <= j < |cands| && cands[j] == r;
      assert !KeyLess(keys[k], keys[j]);
    }
  }

  /** Without a previous detection, or with no kept run near it, the choice
      maximises (total, closeness of its centre to the strip's middle), the
      topmost run on ties. */
  lemma FallbackChoice(runs: seq<Run>, prev: Option<Point>, maxJump: int, rows: int)
    requires |runs| > 0 && Ordered(runs) && !HasNearRun(runs, prev, maxJump)
    ensures var best := ChooseRun(runs, prev, maxJump, rows);
      && best in runs
      && (forall r :: r in runs ==> !KeyLess(FallbackKey(best, rows), FallbackKey(r, rows)))
      && (forall r :: r in runs && r.start < best.start ==> KeyLess(FallbackKey(r, rows), FallbackKey(best, rows)))
  {
    var cands := if prev.Some? then Candidates(runs, prev.value.y, maxJump) else [];
    var keys := FallbackKeys(runs, rows);
    var k := FirstArgMax(keys);
    assert ChooseRun(runs, prev, maxJump, rows) == runs[k];
    FirstMaxIsTopmost(runs, keys, k);
    forall r | r in runs
      ensures !KeyLess(FallbackKey(runs[k], rows), FallbackKey(r, rows))
      ensures r.start < runs[k].start ==> KeyLess(FallbackKey(r, rows), FallbackKey(runs[k], rows))
    {
      var j :| 0 <= j < |runs| && runs[j] == r;
      assert !KeyLess(keys[k], keys[j]);
    }
  }

  // ---------------------------------------------------------------------
  // The whole localiser

  /** The run both copies of `find_lane_line_by_histogram` settle on, or
      None on each of their early `return None` paths. */
  function ChosenRun(m: Mask, wheelX: nat, wheelY: nat, prev: Option<Point>, cfg: Config): Option<Run>
    requires WellFormed(m)
  {
    if StripEmpty(m, wheelX, wheelY, cfg.columnWidth) then None
    else
      var h := Histogram(m, wheelX, wheelY, cfg.columnWidth);
      var peak := SeqMax(h);
      if peak == 0 then None
      else
        var runs := KeptRuns(h, peak, cfg.minLaneWidth);
        if |runs| == 0 then None
        else Some(ChooseRun(runs, prev, cfg.maxJump, |h|))
  }

  /** A chosen run is a kept maximal run of the strip's histogram, so it lies
      within the strip's rows, above the wheel row. */
  lemma ChosenRunInStrip(m: Mask, wheelX: nat, wheelY: nat, prev: Option<Point>, cfg: Config)
    requires WellFormed(m)
    ensures var best := ChosenRun(m, wheelX, wheelY, prev, cfg);
      best.Some? ==>
        && !StripEmpty(m, wheelX, wheelY, cfg.columnWidth)
        && var h := Histogram(m, wheelX, wheelY, cfg.columnWidth);
           && IsMaximalRun(h, SeqMax(h), best.value.start, best.value.end)
           && Kept(best.value, cfg.minLaneWidth)
           && 0 <= best.value.start <= best.value.end < StripRows(m, wheelY) <= wheelY
  {
    if ChosenRun(m, wheelX, wheelY, prev, cfg).Some? {
      var h := Histogram(m, wheelX, wheelY, cfg.columnWidth);
      KeptRunsCharacterised(h, SeqMax(h), cfg.minLaneWidth);
    }
  }

  /** The method form of ChosenRun: lines 10-63 run step by step. */
  method SelectLaneRun(m: Mask, wheelX: nat, wheelY: nat, prev: Option<Point>, cfg: Config)
    returns (best: Option<Run>)
    requires WellFormed(m)
    ensures best == ChosenRun(m, wheelX, wheelY, prev, cfg)
    ensures best.Some? ==> 0 <= best.value.start <= best.value.end < StripRows(m, wheelY)
  {
    ChosenRunInStrip(m, wheelX, wheelY, prev, cfg);
    if StripEmpty(m, wheelX, wheelY, cfg.columnWidth) {
      return None;
    }
    var h := Histogram(m, wheelX, wheelY, cfg.columnWidth);
    var peak := SeqMax(h);
    if peak == 0 {
      return None;
    }
    var runs := ExtractRuns(h, peak, cfg.minLaneWidth);
    if |runs| == 0 {
      return None;
    }
    best := Some(ChooseRun(runs, prev, cfg.maxJump, |h|));
  }

  /** The row `LANE_POINT_MODE` takes from the chosen run; None for a mode
      the source rejects. */
  function PointModeRow(mode: string, r: Run): Option<int>
  {
    if mode == "far" then Some(r.end)
    else if mode == "near" then Some(r.start)
    else if mode == "centre" then Some(RoundHalfEven(r.start + r.end, 2))
    else None
  }

  /** Lines 65-77 of `src/detection.py`: no run gives Ok(None); otherwise
      the mode's row at the wheel's x, or Err(ValueError) for an unknown mode. */
  function PointFromRun(mode: string, wheelX: nat, best: Option<Run>): Result<Option<Point>, Error>
  {
    match best
    case None => Ok(None)
    case Some(r) =>
      match PointModeRow(mode, r)
      case None => Err(ValueError)
      case Some(y) => Ok(Some(Point(wheelX, y)))
  }

  /** `src/detection.py`'s `find_lane_line_by_histogram`: Ok(None) when no
      lane is found, Err(ValueError) for an unknown point mode. */
  function LaneLine(m: Mask, wheelX: nat, wheelY: nat, prev: Option<Point>, cfg: Config): Result<Option<Point>, Error>
    requires WellFormed(m)
  {
    PointFromRun(cfg.lanePointMode, wheelX, ChosenRun(m, wheelX, wheelY, prev, cfg))
  }

  method FindLaneLineByHistogram(m: Mask, wheelX: nat, wheelY: nat, prev: Option<Point>, cfg: Config)
    returns (res: Result<Option<Point>, Error>)
    requires WellFormed(m)
    ensures res == LaneLine(m, wheelX, wheelY, prev, cfg)
  {
    var best := SelectLaneRun(m, wheelX, wheelY, prev, cfg);
    assert LaneLine(m, wheelX, wheelY, prev, cfg) == PointFromRun(cfg.lanePointMode, wheelX, best);
    if best.None? {
      return Ok(None);
    }
    var startIdx, endIdx := best.value.start, best.value.end;
    var laneY: int;
    if cfg.lanePointMode == "far" {
      laneY := endIdx;
    } else if cfg.lanePointMode == "near" {
      laneY := startIdx;
    } else if cfg.lanePointMode == "centre" {
      laneY := RoundHalfEven(startIdx + endIdx, 2);
    } else {
      return Err(ValueError);
    }
    res := Ok(Some(Point(wheelX, laneY)));
  }

  // ---------------------------------------------------------------------
  // Properties of the localiser

  /** The "no lane visible" paths: an empty strip or an all-zero histogram
      gives Ok(None), never an error. */
  lemma NotFoundPaths(m: Mask, wheelX: nat, wheelY: nat, prev: Option<Point>, cfg: Config)
    requires WellFormed(m)
    ensures StripEmpty(m, wheelX, wheelY, cfg.columnWidth) ==> LaneLine(m, wheelX, wheelY, prev, cfg) == Ok(None)
    ensures !StripEmpty(m, wheelX, wheelY, cfg.columnWidth) &&
            (forall i :: 0 <= i < |Histogram(m, wheelX, wheelY, cfg.columnWidth)| ==> Histogram(m, wheelX, wheelY, cfg.columnWidth)[i] == 0)
            ==> LaneLine(m, wheelX, wheelY, prev, cfg) == Ok(None)
  {
  }

  /** ValueError is raised exactly when a run was chosen and the mode is not
      one of far, near, centre. */
  lemma ModeErrorOnlyWithRun(m: Mask, wheelX: nat, wheelY: nat, prev: Option<Point>, cfg: Config)
    requires WellFormed(m)
    ensures LaneLine(m, wheelX, wheelY, prev, cfg).Err? <==>
      ChosenRun(m, wheelX, wheelY, prev, cfg).Some? && cfg.lanePointMode !in {"far", "near", "centre"}
    ensures LaneLine(m, wheelX, wheelY, prev, cfg).Err? ==> LaneLine(m, wheelX, wheelY, prev, cfg) == Err(ValueError)
  {
  }

  /** A detected point has the wheel's x and a row of the strip, chosen by
      the point mode: `far` the run's last row (the edge nearer the wheel
      row), `near` its first row, `centre` the midpoint rounded half to even. */
  lemma LaneLineRow(m: Mask, wheelX: nat, wheelY: nat, prev: Option<Point>, cfg: Config)
    requires WellFormed(m)
    ensures var res := LaneLine(m, wheelX, wheelY, prev, cfg);
      res.Ok? && res.value.Some? ==>
        var p, r := res.value.value, ChosenRun(m, wheelX, wheelY, prev, cfg).value;
        && p.x == wheelX
        && 0 <= p.y < Min(wheelY, |m.pixels|)
        && (cfg.lanePointMode == "far" ==> p.y == r.end)
        && (cfg.lanePointMode == "near" ==> p.y == r.start)
        && (cfg.lanePointMode == "centre" ==>
              2 * Abs(2 * p.y - (r.start + r.end)) <= 2
              && (2 * Abs(2 * p.y - (r.start + r.end)) == 2 ==> p.y % 2 == 0))
  {
    ChosenRunInStrip(m, wheelX, wheelY, prev, cfg);
  }

  lemma {:induction false} CountWhiteSameRow(a: seq<int>, b: seq<int>, lo: nat, hi: nat)
    requires lo <= hi <= |a| && hi <= |b|
    requires forall j :: lo <= j < hi ==> a[j] == b[j]
    ensures CountWhite(a, lo, hi) == CountWhite(b, lo, hi)
    decreases hi - lo
  {
    if hi > lo {
      CountWhiteSameRow(a, b, lo, hi - 1);
    }
  }

  /** The localiser reads only the strip: two masks of the same width that
      agree on the strip's rows and columns give the same answer. */
  lemma LocaliserReadsOnlyStrip(m1: Mask, m2: Mask, wheelX: nat, wheelY: nat, prev: Option<Point>, cfg: Config)
    requires WellFormed(m1) && WellFormed(m2) && m1.width == m2.width
    requires StripRows(m1, wheelY) == StripRows(m2, wheelY)
    requires forall i, j :: 0 <= i < StripRows(m1, wheelY) && StripLeft(wheelX, cfg.columnWidth) <= j < StripRight(m1, wheelX, cfg.columnWidth)
               ==> m1.pixels[i][j] == m2.pixels[i][j]
    ensures LaneLine(m1, wheelX, wheelY, prev, cfg) == LaneLine(m2, wheelX, wheelY, prev, cfg)
  {
    if !StripEmpty(m1, wheelX, wheelY, cfg.columnWidth) {
      var lo, hi := StripLeft(wheelX, cfg.columnWidth), StripRight(m1, wheelX, cfg.columnWidth);
      forall i | 0 <= i < StripRows(m1, wheelY)
        ensures CountWhite(m1.pixels[i], lo, hi) == CountWhite(m2.pixels[i], lo, hi)
      {
        CountWhiteSameRow(m1.pixels[i], m2.pixels[i], lo, hi);
      }
      assert Histogram(m1, wheelX, wheelY, cfg.columnWidth) == Histogram(m2, wheelX, wheelY, cfg.columnWidth);
    }
  }

  // ---------------------------------------------------------------------
  // Worked examples

  /** Two strong bands; both pass the filter for a minimum width of 3. */
  lemma KeptRunsExample()
    ensures KeptRuns([0, 0, 5, 5, 5, 0, 0, 8, 8, 8, 8, 0], 8, 3) == [Run(2, 4, 3, 15), Run(7, 10, 4, 32)]
  {
    var h: seq<nat> := [0, 0, 5, 5, 5, 0, 0, 8, 8, 8, 8, 0];
    assert Sum(h, 2, 5) == 15;
    assert Sum(h, 7, 11) == 32;
    assert RunsFrom(h, 8, 3, 6, None) == [Run(7, 10, 4, 32)];
  }

  /** Without a previous detection the stronger band wins; with one at row
      3 and a jump of 2 rows, the band around row 3 wins though it is
      weaker. */
  lemma ChooseRunExample()
    ensures ChooseRun([Run(2, 4, 3, 15), Run(7, 10, 4, 32)], None, 2, 12) == Run(7, 10, 4, 32)
    ensures ChooseRun([Run(2, 4, 3, 15), Run(7, 10, 4, 32)], Some(Point(0, 3)), 2, 12) == Run(2, 4, 3, 15)
  {
    var runs := [Run(2, 4, 3, 15), Run(7, 10, 4, 32)];
    assert Candidates(runs[1..], 3, 2) == [];
    assert Candidates(runs, 3, 2) == [Run(2, 4, 3, 15)];
  }

  /** Equal totals at equal distances from the strip's middle: the first
      band is kept, as Python's `max` keeps the first maximal element. */
  lemma FallbackTieKeepsFirst()
    ensures ChooseRun([Run(1, 3, 3, 9), Run(8, 10, 3, 9)], None, 30, 11) == Run(1, 3, 3, 9)
  {
    var keys := FallbackKeys([Run(1, 3, 3, 9), Run(8, 10, 3, 9)], 11);
    assert keys == [Key(9, -7), Key(9, -7)];
  }

  /** The three point modes on the band of rows 5 to 9, and half-to-even
      rounding of the centre (2.5 to 2, 3.5 to 4). */
  lemma PointModeRowExample()
    ensures PointModeRow("far", Run(5, 9, 5, 50)) == Some(9)
    ensures PointModeRow("near", Run(5, 9, 5, 50)) == Some(5)
    ensures PointModeRow("centre", Run(5, 9, 5, 50)) == Some(7)
    ensures PointModeRow("centre", Run(2, 3, 2, 20)) == Some(2)
    ensures PointModeRow("centre", Run(3, 4, 2, 20)) == Some(4)
    ensures PointModeRow("middle", Run(5, 9, 5, 50)) == None
  {
    RoundHalfEvenUnique(14, 2, 7);
    RoundHalfEvenUnique(5, 2, 2);
    RoundHalfEvenUnique(7, 2, 4);
  }
}
