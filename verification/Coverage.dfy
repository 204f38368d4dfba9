/** Does the promoted media cover an event's required window? */
module Coverage {
  import opened Wrappers
  import opened Sorting
  import opened Windows

  predicate Covers(interval: Window, target: Window, tolerance: real) {
    interval.start <= target.start + tolerance && interval.end >= target.end - tolerance
  }

  predicate CoverageOk(target: Window, items: seq<Window>, tolerance: real) {
    exists w :: w in Merged(items, tolerance) && Covers(w, target, tolerance)
  }

  /** The scan of the merged intervals; the first covering one is reported. */
  method CoverageForEvent(target: Window, items: seq<Window>, tolerance: real) returns (covering: Option<Window>)
    ensures covering.Some? <==> CoverageOk(target, items, tolerance)
    ensures covering.Some? ==>
      exists k :: 0 <= k < |Merged(items, tolerance)| && Merged(items, tolerance)[k] == covering.value
                  && Covers(covering.value, target, tolerance)
                  && forall i :: 0 <= i < k ==> !Covers(Merged(items, tolerance)[i], target, tolerance)
  {
    var intervals := MergeWindows(items, tolerance);
    for k := 0 to |intervals|
      invariant forall i :: 0 <= i < k ==> !Covers(intervals[i], target, tolerance)
    {
      if Covers(intervals[k], target, tolerance) {
        return Some(intervals[k]);
      }
    }
    return None;
  }

  /** Soundness: a positive answer puts every instant of the window within the tolerance of media. */
  lemma {:induction false} CoverageIsSound(target: Window, items: seq<Window>, tolerance: real, x: real)
    requires tolerance >= 0.0 && CoverageOk(target, items, tolerance)
    requires target.start <= x <= target.end
    ensures NearAny(x, items, tolerance)
  {
    var w :| w in Merged(items, tolerance) && Covers(w, target, tolerance);
    assert Near(x, w, tolerance);
    MergedNear(x, items, tolerance);
  }

  /** Each recorded fragment starts no later than the tolerance after its predecessor's end. */
  predicate Linked(chain: seq<Window>, tolerance: real) {
    forall i :: 0 < i < |chain| ==> chain[i].start <= chain[i - 1].end + tolerance
  }

  predicate Spans(chain: seq<Window>, target: Window, tolerance: real) {
    && chain != [] && Linked(chain, tolerance)
    && chain[0].start <= target.start + tolerance
    && chain[|chain| - 1].end >= target.end - tolerance
  }

  /** Of two separated windows, one that starts within the tolerance of the other's end does not start later. */
  lemma {:induction false} NoLaterStart(merged: seq<Window>, before: Window, outer: Window, tolerance: real)
    requires SortedBy(WindowLe, merged) && Separated(merged, tolerance) && before in merged && outer in merged
    requires outer.start <= before.end + tolerance
    ensures outer.start <= before.start
  {
    var p :| 0 <= p < |merged| && merged[p] == before;
    var q :| 0 <= q < |merged| && merged[q] == outer;
    assert q < p ==> WindowLe(merged[q], merged[p]);
  }

  lemma {:induction false} LinkedStaysCovered(chain: seq<Window>, i: nat, j: nat, bound: real, items: seq<Window>,
      tolerance: real)
    returns (outer: Window)
    requires i <= j < |chain| && Linked(chain, tolerance)
    requires forall k :: i <= k <= j ==> chain[k] in items
    requires chain[i].start <= bound
    ensures outer in Merged(items, tolerance) && Inside(chain[j], outer) && outer.start <= bound
    decreases j
  {
    outer := MergedContains(chain[j], items, tolerance);
    if i < j {
      var before := LinkedStaysCovered(chain, i, j - 1, bound, items, tolerance);
      MergedIsCanonical(items, items, tolerance);
      NoLaterStart(Merged(items, tolerance), before, outer, tolerance);
    }
  }

  /** The stretch of the chain that overlaps the target carries the whole target. */
  lemma {:induction false} OverlappingStretch(chain: seq<Window>, target: Window, tolerance: real)
      returns (i: nat, j: nat)
    requires Spans(chain, target, tolerance) && target.end - target.start > tolerance
    ensures i <= j < |chain|
    ensures chain[i].start <= target.start + tolerance && chain[j].end >= target.end - tolerance
    ensures forall k :: i <= k <= j ==> Overlaps(chain[k], target)
  {
    j := 0;
    while chain[j].end < target.end - tolerance
      invariant j < |chain| && forall k :: 0 <= k < j ==> chain[k].end < target.end - tolerance
      decreases |chain| - j
    {
      j := j + 1;
    }
    i := j;
    while i > 0 && chain[i - 1].end > target.start
      invariant i <= j && forall k :: i <= k < j ==> chain[k].end > target.start
    {
      i := i - 1;
    }
    forall k | i <= k <= j ensures Overlaps(chain[k], target) {
      if k > 0 { assert chain[k].start <= chain[k - 1].end + tolerance; }
    }
  }

  /** Completeness: a window longer than the tolerance, spanned by linked fragments whose overlapping
      ones are all promoted, is reported covered whatever else was promoted. */
  lemma {:induction false} CoverageIsComplete(target: Window, chain: seq<Window>, items: seq<Window>, tolerance: real)
    requires Spans(chain, target, tolerance) && target.end - target.start > tolerance
    requires forall f :: f in chain && Overlaps(f, target) ==> f in items
    ensures CoverageOk(target, items, tolerance)
  {
    var i, j := OverlappingStretch(chain, target, tolerance);
    var outer := LinkedStaysCovered(chain, i, j, target.start + tolerance, items, tolerance);
    assert Covers(outer, target, tolerance);
  }

  /** The length condition is exact: a window no longer than the tolerance can fall into a gap that
      still counts as linked, so that no fragment overlaps it and nothing is promoted. */
  lemma {:induction false} ShortWindowsCanBeMissed(target: Window, tolerance: real)
    requires 0.0 <= tolerance && target.end - target.start <= tolerance
    ensures exists chain: seq<Window> ::
      && Spans(chain, target, tolerance)
      && (forall f :: f in chain ==> f.start < f.end && !Overlaps(f, target))
      && !CoverageOk(target, [], tolerance)
  {
    var chain := [Window(target.start - 1.0, target.start), Window(target.end, target.end + 1.0)];
    assert Spans(chain, target, tolerance);
    assert forall f :: f in chain ==> f.start < f.end && !Overlaps(f, target);
    assert !CoverageOk(target, [], tolerance);
  }
}
