/** Client-side timeline lookups, in integer milliseconds: the segment under an instant by binary search,
    and the next instant at which any timeline is playable. */
module PlaybackLookup {
  import opened Wrappers

  datatype Availability = Local | Remote | CachedRemote | Missing | Corrupted | Purged

  datatype RecordingRange = RecordingRange(start: int, end: int, availability: Availability)

  datatype Segment = Segment(id: string, start: int, end: int)

  type Timeline = seq<RecordingRange>

  // ----- the segment under an instant -----

  predicate Contains(s: Segment, target: int) {
    s.start <= target < s.end
  }

  function LinearScan(segments: seq<Segment>, target: int): Option<Segment> {
    if segments == [] then None
    else if Contains(segments[0], target) then Some(segments[0])
    else LinearScan(segments[1..], target)
  }

  /** Sorted by start, and no segment reaches into a later one. */
  predicate Ordered(segments: seq<Segment>) {
    forall i, j :: 0 <= i < j < |segments| ==>
      segments[i].start <= segments[j].start && segments[i].end <= segments[j].start
  }

  lemma {:induction false} ScanFinds(segments: seq<Segment>, target: int, k: nat)
    requires k < |segments| && forall i :: 0 <= i < k ==> !Contains(segments[i], target)
    ensures LinearScan(segments, target)
         == if Contains(segments[k], target) then Some(segments[k]) else LinearScan(segments[k + 1..], target)
  {
    if k > 0 {
      ScanFinds(segments[1..], target, k - 1);
      assert segments[1..][k..] == segments[k + 1..];
    }
  }

  lemma {:induction false} ScanFindsNothing(segments: seq<Segment>, target: int)
    requires forall i :: 0 <= i < |segments| ==> !Contains(segments[i], target)
    ensures LinearScan(segments, target) == None
  {
    if segments != [] {
      ScanFindsNothing(segments[1..], target);
    }
  }

  /** A scan finds a segment that contains the instant, or there is none. */
  lemma {:induction false} ScanIsExact(segments: seq<Segment>, target: int)
    ensures var found := LinearScan(segments, target);
            && (found.Some? ==> found.value in segments && found.value.start <= target < found.value.end)
            && (found == None ==> forall i :: 0 <= i < |segments| ==>
                 target < segments[i].start || segments[i].end <= target)
  {
    if segments != [] {
      ScanIsExact(segments[1..], target);
      assert segments == [segments[0]] + segments[1..];
    }
  }

  /** `(low + high) >>> 1` in unsigned 32-bit arithmetic; within the bound on the length it does not wrap. */
  function Middle(low: int, high: int): (middle: int)
    requires 0 <= low <= high < 0x8000_0000
    ensures low <= middle <= high
  {
    ((low + high) % 0x1_0000_0000) / 2
  }

  method FindTimelineSegmentAt(segments: seq<Segment>, target: int) returns (found: Option<Segment>)
    requires Ordered(segments) && |segments| <= 0x8000_0000
    ensures found == LinearScan(segments, target)
    ensures found.Some? ==> found.value in segments && found.value.start <= target < found.value.end
    ensures found == None ==> forall i :: 0 <= i < |segments| ==>
            target < segments[i].start || segments[i].end <= target
  {
    ScanIsExact(segments, target);
    var low: int, high: int, candidate: int := 0, |segments| - 1, -1;
    while low <= high
      invariant 0 <= low <= high + 1 <= |segments| && candidate == low - 1
      invariant forall i :: 0 <= i < low ==> segments[i].start <= target
      invariant forall i :: high < i < |segments| ==> target < segments[i].start
      decreases high - low
    {
      var middle: int := Middle(low, high);
      if segments[middle].start <= target {
        candidate := middle;
        low := middle + 1;
      } else {
        high := middle - 1;
      }
    }
    if candidate < 0 {
      ScanFindsNothing(segments, target);
      return None;
    }
    assert forall i :: 0 <= i < candidate ==> segments[i].end <= segments[candidate].start;
    ScanFinds(segments, target, candidate);
    if target < segments[candidate].end {
      return Some(segments[candidate]);
    }
    ScanFindsNothing(segments[candidate + 1..], target);
    return None;
  }

  // ----- the next playable instant -----

  predicate Available(r: RecordingRange) {
    r.availability.Local? || r.availability.Remote? || r.availability.CachedRemote?
  }

  predicate HasPlayableAt(timeline: Timeline, at: int) {
    exists i :: 0 <= i < |timeline| && Available(timeline[i]) && timeline[i].start <= at < timeline[i].end
  }

  predicate PlayableAt(timelines: seq<Timeline>, at: int) {
    exists k :: 0 <= k < |timelines| && HasPlayableAt(timelines[k], at)
  }

  predicate TimelineStartsAt(timeline: Timeline, at: int) {
    exists i :: 0 <= i < |timeline| && Available(timeline[i]) && timeline[i].start == at
  }

  /** Some available range starts at `at`. */
  predicate StartsAt(timelines: seq<Timeline>, at: int) {
    exists k :: 0 <= k < |timelines| && TimelineStartsAt(timelines[k], at)
  }

  ghost predicate LeastStart(timelines: seq<Timeline>, after: int, next: Option<int>) {
    && (next.Some? ==> next.value > after && StartsAt(timelines, next.value))
    && (forall t :: t > after && StartsAt(timelines, t) ==> next.Some? && next.value <= t)
  }

  /** What the search computes: nothing while playback is possible, else the least later start. */
  ghost predicate IsNext(timelines: seq<Timeline>, after: int, next: Option<int>) {
    if PlayableAt(timelines, after) then next == None else LeastStart(timelines, after, next)
  }

  method FindNextPlayableTimelineTime(timelines: seq<Timeline>, after: int) returns (next: Option<int>)
    ensures IsNext(timelines, after, next)
  {
    if PlayableAt(timelines, after) {
      return None;
    }
    next := None;
    for k := 0 to |timelines|
      invariant next.Some? ==> next.value > after && StartsAt(timelines, next.value)
      invariant forall j, t :: 0 <= j < k && t > after && TimelineStartsAt(timelines[j], t) ==>
                next.Some? && next.value <= t
    {
      var timeline := timelines[k];
      for i := 0 to |timeline|
        invariant next.Some? ==> next.value > after && StartsAt(timelines, next.value)
        invariant forall j, t :: 0 <= j < k && t > after && TimelineStartsAt(timelines[j], t) ==>
                  next.Some? && next.value <= t
        invariant forall j :: 0 <= j < i && Available(timeline[j]) && timeline[j].start > after ==>
                  next.Some? && next.value <= timeline[j].start
      {
        if !Available(timeline[i]) {
          continue;
        }
        var start := timeline[i].start;
        if start <= after || (next.Some? && start >= next.value) {
          continue;
        }
        next := Some(start);
        assert TimelineStartsAt(timelines[k], start);
      }
    }
  }

  /** Some timeline holds footage of the instant that is not missing, corrupted or purged. */
  predicate Plays(timelines: seq<Timeline>, at: int) {
    exists k, i :: && 0 <= k < |timelines| && 0 <= i < |timelines[k]|
                   && timelines[k][i].availability !in {Missing, Corrupted, Purged}
                   && timelines[k][i].start <= at && at < timelines[k][i].end
  }

  lemma {:induction false} PlaysIsPlayable(timelines: seq<Timeline>, at: int)
    ensures Plays(timelines, at) <==> PlayableAt(timelines, at)
  {
    if PlayableAt(timelines, at) {
      var k :| 0 <= k < |timelines| && HasPlayableAt(timelines[k], at);
      var i :| 0 <= i < |timelines[k]| && Available(timelines[k][i])
        && timelines[k][i].start <= at < timelines[k][i].end;
      assert timelines[k][i].availability !in {Missing, Corrupted, Purged};
    }
    if Plays(timelines, at) {
      var k, i :| && 0 <= k < |timelines| && 0 <= i < |timelines[k]|
                  && timelines[k][i].availability !in {Missing, Corrupted, Purged}
                  && timelines[k][i].start <= at && at < timelines[k][i].end;
      assert HasPlayableAt(timelines[k], at);
    }
  }

  /** What a caller wants: the least later playable instant, or nothing exactly when playback is
      possible now or never again. */
  ghost predicate IsNextPlayable(timelines: seq<Timeline>, after: int, next: Option<int>) {
    match next
    case None => Plays(timelines, after) || forall t :: t > after ==> !Plays(timelines, t)
    case Some(t) =>
      && after < t && !Plays(timelines, after) && Plays(timelines, t)
      && forall u :: after < u < t ==> !Plays(timelines, u)
  }

  /** Every available range starts at a playable instant or directly after one. Ranges of positive
      length always do; an empty one does only next to another. */
  ghost predicate NoStrayRange(timelines: seq<Timeline>) {
    forall t :: StartsAt(timelines, t) ==> PlayableAt(timelines, t) || PlayableAt(timelines, t - 1)
  }

  predicate PositiveLengths(timelines: seq<Timeline>) {
    forall k, i :: 0 <= k < |timelines| && 0 <= i < |timelines[k]| && Available(timelines[k][i])
      ==> timelines[k][i].start < timelines[k][i].end
  }

  lemma {:induction false} PositiveLengthsLeaveNoStray(timelines: seq<Timeline>)
    requires PositiveLengths(timelines)
    ensures NoStrayRange(timelines)
  {
    forall t | StartsAt(timelines, t) ensures PlayableAt(timelines, t) {
      var k :| 0 <= k < |timelines| && TimelineStartsAt(timelines[k], t);
      assert HasPlayableAt(timelines[k], t);
    }
  }

  /** A playable instant after an unplayable one has a range start in between. */
  lemma {:induction false} PlayableHasStart(timelines: seq<Timeline>, after: int, at: int) returns (start: int)
    requires after < at && PlayableAt(timelines, at) && !PlayableAt(timelines, after)
    ensures after < start <= at && StartsAt(timelines, start)
  {
    var k :| 0 <= k < |timelines| && HasPlayableAt(timelines[k], at);
    var i :| 0 <= i < |timelines[k]| && Available(timelines[k][i]) && timelines[k][i].start <= at < timelines[k][i].end;
    start := timelines[k][i].start;
    assert TimelineStartsAt(timelines[k], start);
    assert !HasPlayableAt(timelines[k], after);
  }

  lemma {:induction false} NextIsPlayable(timelines: seq<Timeline>, after: int, next: Option<int>)
    requires NoStrayRange(timelines) && IsNext(timelines, after, next)
    ensures IsNextPlayable(timelines, after, next)
  {
    forall t ensures Plays(timelines, t) <==> PlayableAt(timelines, t) {
      PlaysIsPlayable(timelines, t);
    }
    if !PlayableAt(timelines, after) {
      forall u | after < u && PlayableAt(timelines, u) ensures next.Some? && next.value <= u {
        var start := PlayableHasStart(timelines, after, u);
      }
      if next.Some? && !PlayableAt(timelines, next.value) {
        var start := PlayableHasStart(timelines, after, next.value - 1);
        assert false;
      }
    }
  }

  /** The search answers correctly at every instant exactly when no available range is stray. */
  lemma {:induction false} NextPlayableIsExact(timelines: seq<Timeline>)
    ensures NoStrayRange(timelines) <==>
            forall after, next :: IsNext(timelines, after, next) ==> IsNextPlayable(timelines, after, next)
  {
    if NoStrayRange(timelines) {
      forall after, next | IsNext(timelines, after, next) ensures IsNextPlayable(timelines, after, next) {
        NextIsPlayable(timelines, after, next);
      }
    } else {
      var t :| StartsAt(timelines, t) && !PlayableAt(timelines, t) && !PlayableAt(timelines, t - 1);
      PlaysIsPlayable(timelines, t);
      assert IsNext(timelines, t - 1, Some(t));
      assert !IsNextPlayable(timelines, t - 1, Some(t));
    }
  }

  /** An empty range on its own is returned although nothing plays there. */
  lemma {:induction false} StrayRangeMisleads()
    ensures var timelines := [[RecordingRange(5, 5, Local), RecordingRange(9, 12, Local)]];
            IsNext(timelines, 0, Some(5)) && !IsNextPlayable(timelines, 0, Some(5))
              && IsNextPlayable(timelines, 0, Some(9))
  {
    var timelines := [[RecordingRange(5, 5, Local), RecordingRange(9, 12, Local)]];
    assert TimelineStartsAt(timelines[0], 5) by { assert timelines[0][0].start == 5; }
    assert timelines[0][1].availability !in {Missing, Corrupted, Purged} && timelines[0][1].start <= 9;
  }
}
