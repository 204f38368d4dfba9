/** Projection of finalized recording segments onto a timeline: session normalisation, coverage ranges,
    and resolving a wall-clock instant. */
module Timeline {
  import opened Wrappers

  datatype Segment = Segment(id: string, start: real, end: real, duration: real)

  datatype Range = Range(start: real, end: real, ids: seq<string>)

  datatype Resolution =
    | Playable(segment: Segment, offset: real)
    | Gap(previous: Option<real>, next: Option<real>)

  // ----- ranges -----

  function RangesFrom(current: Range, rest: seq<Segment>, tolerance: real): (ranges: seq<Range>)
    ensures ranges != []
    decreases |rest|
  {
    if rest == [] then [current]
    else if rest[0].start <= current.end + tolerance then
      RangesFrom(Range(current.start, Max(current.end, rest[0].end), current.ids + [rest[0].id]), rest[1..], tolerance)
    else
      [current] + RangesFrom(Range(rest[0].start, rest[0].end, [rest[0].id]), rest[1..], tolerance)
  }

  function FirstRange(items: seq<Segment>): Range
    requires items != []
  {
    Range(items[0].start, items[0].end, [items[0].id])
  }

  function Ranges(items: seq<Segment>, tolerance: real): seq<Range> {
    if items == [] then [] else RangesFrom(FirstRange(items), items[1..], tolerance)
  }

  lemma {:induction false} RangesStep(done: seq<Range>, current: Range, rest: seq<Segment>, tolerance: real)
    requires rest != []
    ensures done + RangesFrom(current, rest, tolerance) ==
            if rest[0].start <= current.end + tolerance
            then done + RangesFrom(Range(current.start, Max(current.end, rest[0].end), current.ids + [rest[0].id]),
              rest[1..], tolerance)
            else (done + [current]) + RangesFrom(Range(rest[0].start, rest[0].end, [rest[0].id]), rest[1..], tolerance)
  {}

  method BuildRanges(items: seq<Segment>, tolerance: real) returns (ranges: seq<Range>)
    ensures ranges == Ranges(items, tolerance)
  {
    if items == [] {
      return [];
    }
    ranges := [];
    var current := Range(items[0].start, items[0].end, [items[0].id]);
    for i := 1 to |items|
      invariant ranges + RangesFrom(current, items[i..], tolerance) == Ranges(items, tolerance)
    {
      RangesStep(ranges, current, items[i..], tolerance);
      assert items[i..][1..] == items[i + 1..];
      var item := items[i];
      if item.start <= current.end + tolerance {
        current := current.(end := Max(current.end, item.end), ids := current.ids + [item.id]);
      } else {
        ranges := ranges + [current];
        current := Range(item.start, item.end, [item.id]);
      }
    }
    ranges := ranges + [current];
  }

  // ----- resolving an instant -----

  predicate Holds(item: Segment, at: real) {
    item.start <= at < item.end
  }

  function FirstHolding(items: seq<Segment>, at: real): (found: Option<nat>)
    ensures found.Some? ==> found.value < |items| && Holds(items[found.value], at)
                            && forall i :: 0 <= i < found.value ==> !Holds(items[i], at)
    ensures found.None? ==> forall i :: 0 <= i < |items| ==> !Holds(items[i], at)
  {
    if items == [] then None
    else if Holds(items[0], at) then Some(0)
    else match FirstHolding(items[1..], at) case None => None case Some(i) => Some(i + 1)
  }

  /** The greatest end not after `at`. */
  function PreviousEnd(items: seq<Segment>, at: real): (previous: Option<real>)
    ensures previous.Some? ==> previous.value <= at && exists i :: 0 <= i < |items| && items[i].end == previous.value
    ensures forall i :: 0 <= i < |items| && items[i].end <= at ==> previous.Some? && items[i].end <= previous.value
  {
    if items == [] then None
    else
      var rest, last := PreviousEnd(items[..|items| - 1], at), items[|items| - 1].end;
      if last > at then rest else if rest.None? then Some(last) else Some(Max(rest.value, last))
  }

  /** The least start after `at`. */
  function NextStart(items: seq<Segment>, at: real): (next: Option<real>)
    ensures next.Some? ==> next.value > at && exists i :: 0 <= i < |items| && items[i].start == next.value
    ensures forall i :: 0 <= i < |items| && items[i].start > at ==> next.Some? && next.value <= items[i].start
  {
    if items == [] then None
    else
      var rest, last := NextStart(items[..|items| - 1], at), items[|items| - 1].start;
      if last <= at then rest else if rest.None? || last < rest.value then Some(last) else rest
  }

  function Resolve(items: seq<Segment>, at: real): Resolution {
    match FirstHolding(items, at)
    case Some(i) => Playable(items[i], at - items[i].start)
    case None => Gap(PreviousEnd(items, at), NextStart(items, at))
  }

  method ResolveWallClock(items: seq<Segment>, at: real) returns (resolution: Resolution)
    ensures resolution == Resolve(items, at)
  {
    for i := 0 to |items|
      invariant forall j :: 0 <= j < i ==> !Holds(items[j], at)
    {
      if Holds(items[i], at) {
        return Playable(items[i], at - items[i].start);
      }
    }
    return Gap(PreviousEnd(items, at), NextStart(items, at));
  }

  /** An instant is playable in the first segment that contains it, as far from its start as the instant is;
      it is in a gap exactly when no segment contains it. */
  lemma {:induction false} ResolutionIsExact(items: seq<Segment>, at: real, segment: Segment, offset: real)
    ensures Resolve(items, at) == Playable(segment, offset) <==>
            exists i :: && 0 <= i < |items| && items[i] == segment
                        && segment.start <= at < segment.end && segment.start + offset == at
                        && forall j :: 0 <= j < i ==> at < items[j].start || items[j].end <= at
    ensures Resolve(items, at).Gap? <==> forall i :: 0 <= i < |items| ==> at < items[i].start || items[i].end <= at
  {
    var found := FirstHolding(items, at);
    if found.Some? {
      var k := found.value;
      assert Holds(items[k], at);
      forall i | 0 <= i < |items| && Holds(items[i], at) && forall j :: 0 <= j < i ==> !Holds(items[j], at)
        ensures i == k
      {
        assert !(i < k) && !(k < i);
      }
    }
  }

  // ----- the range index agrees with the segment scan -----

  predicate StartsSorted(items: seq<Segment>) {
    forall i, j :: 0 <= i < j < |items| ==> items[i].start <= items[j].start
  }

  predicate PositiveLengths(items: seq<Segment>) {
    forall i :: 0 <= i < |items| ==> items[i].start < items[i].end
  }

  predicate Apart(ranges: seq<Range>) {
    && (forall i :: 0 <= i < |ranges| ==> ranges[i].start < ranges[i].end)
    && (forall i, j :: 0 <= i < j < |ranges| ==> ranges[i].end < ranges[j].start)
  }

  function Ids(items: seq<Segment>): seq<string> {
    if items == [] then [] else [items[0].id] + Ids(items[1..])
  }

  function AllIds(ranges: seq<Range>): seq<string> {
    if ranges == [] then [] else ranges[0].ids + AllIds(ranges[1..])
  }

  lemma {:induction false} PrependApart(first: Range, ranges: seq<Range>)
    requires ranges != [] && Apart(ranges) && first.start < first.end < ranges[0].start
    ensures Apart([first] + ranges)
  {
    var all := [first] + ranges;
    forall i, j | 0 <= i < j < |all| ensures all[i].end < all[j].start {
      assert all[j] == ranges[j - 1];
      if i > 0 { assert all[i] == ranges[i - 1]; } else if j > 1 { assert ranges[0].end < ranges[j - 1].start; }
    }
  }

  lemma {:induction false} RangesFromApart(current: Range, rest: seq<Segment>, tolerance: real)
    requires tolerance >= 0.0 && current.start < current.end
    requires PositiveLengths(rest)
    ensures Apart(RangesFrom(current, rest, tolerance))
            && RangesFrom(current, rest, tolerance)[0].start == current.start
    ensures AllIds(RangesFrom(current, rest, tolerance)) == current.ids + Ids(rest)
    decreases |rest|
  {
    if rest == [] {
      assert AllIds([current][1..]) == [] && Ids(rest) == [];
    } else {
      var item, tail := rest[0], rest[1..];
      if item.start <= current.end + tolerance {
        RangesFromApart(Range(current.start, Max(current.end, item.end), current.ids + [item.id]), tail, tolerance);
      } else {
        var others := RangesFrom(Range(item.start, item.end, [item.id]), tail, tolerance);
        RangesFromApart(Range(item.start, item.end, [item.id]), tail, tolerance);
        PrependApart(current, others);
        assert ([current] + others)[1..] == others;
      }
    }
  }

  lemma {:induction false} FirstStartsFirst(rest: seq<Segment>, item: Segment)
    requires StartsSorted(rest) && item in rest
    ensures rest[0].start <= item.start
  {
    var i :| 0 <= i < |rest| && rest[i] == item;
  }

  lemma {:induction false} RangesFromHold(current: Range, rest: seq<Segment>, tolerance: real, item: Segment)
      returns (k: nat)
    requires current.start <= item.start && StartsSorted(rest)
             && (forall i :: 0 <= i < |rest| ==> current.start <= rest[i].start)
    requires item.end <= current.end || item in rest
    ensures var ranges := RangesFrom(current, rest, tolerance);
            k < |ranges| && ranges[k].start <= item.start && item.end <= ranges[k].end
    decreases |rest|
  {
    if rest == [] {
      k := 0;
    } else {
      var first, tail := rest[0], rest[1..];
      assert rest == [first] + tail;
      if first.start <= current.end + tolerance {
        k := RangesFromHold(Range(current.start, Max(current.end, first.end), current.ids + [first.id]), tail,
          tolerance, item);
      } else if item.end <= current.end {
        k := 0;
      } else {
        assert item == first || item in tail;
        FirstStartsFirst(rest, item);
        var k' := RangesFromHold(Range(first.start, first.end, [first.id]), tail, tolerance, item);
        k := k' + 1;
      }
    }
  }

  /** Range bounds are bounds of segments. */
  lemma {:induction false} RangesFromAttain(current: Range, rest: seq<Segment>, tolerance: real, k: nat)
    requires k < |RangesFrom(current, rest, tolerance)|
    ensures var r := RangesFrom(current, rest, tolerance)[k];
            && (r.start == current.start || exists i :: 0 <= i < |rest| && rest[i].start == r.start)
            && (r.end == current.end || exists i :: 0 <= i < |rest| && rest[i].end == r.end)
    decreases |rest|
  {
    if rest != [] {
      var first, tail := rest[0], rest[1..];
      assert forall i :: 0 <= i < |tail| ==> tail[i] == rest[i + 1];
      if first.start <= current.end + tolerance {
        RangesFromAttain(Range(current.start, Max(current.end, first.end), current.ids + [first.id]), tail, tolerance,
          k);
      } else if k > 0 {
        RangesFromAttain(Range(first.start, first.end, [first.id]), tail, tolerance, k - 1);
      }
    }
  }

  predicate Timed(items: seq<Segment>, tolerance: real) {
    items != [] && StartsSorted(items) && PositiveLengths(items) && tolerance >= 0.0
  }

  /** The ranges partition the segments in order, and lie apart in time. */
  lemma {:induction false} RangesPartition(items: seq<Segment>, tolerance: real)
    requires Timed(items, tolerance)
    ensures Ranges(items, tolerance) != [] && Apart(Ranges(items, tolerance))
            && AllIds(Ranges(items, tolerance)) == Ids(items)
  {
    RangesFromApart(FirstRange(items), items[1..], tolerance);
  }

  lemma {:induction false} RangeOf(items: seq<Segment>, tolerance: real, i: nat) returns (k: nat)
    requires Timed(items, tolerance) && i < |items|
    ensures var ranges := Ranges(items, tolerance);
            k < |ranges| && ranges[k].start <= items[i].start && items[i].end <= ranges[k].end
  {
    assert i > 0 ==> items[i] == items[1..][i - 1];
    k := RangesFromHold(FirstRange(items), items[1..], tolerance, items[i]);
  }

  lemma {:induction false} RangeBounds(items: seq<Segment>, tolerance: real, k: nat) returns (a: nat, b: nat)
    requires Timed(items, tolerance) && k < |Ranges(items, tolerance)|
    ensures a < |items| && b < |items|
    ensures items[a].start == Ranges(items, tolerance)[k].start && items[b].end == Ranges(items, tolerance)[k].end
  {
    RangesFromAttain(FirstRange(items), items[1..], tolerance, k);
    var r := Ranges(items, tolerance)[k];
    assert forall i :: 0 <= i < |items| - 1 ==> items[1..][i] == items[i + 1];
    if r.start == items[0].start { a := 0; } else {
      var i :| 0 <= i < |items| - 1 && items[1..][i].start == r.start;
      a := i + 1;
    }
    if r.end == items[0].end { b := 0; } else {
      var i :| 0 <= i < |items| - 1 && items[1..][i].end == r.end;
      b := i + 1;
    }
  }

  predicate InRange(r: Range, at: real) {
    r.start <= at < r.end
  }

  /** Every playable instant lies in exactly one range. */
  lemma {:induction false} PlayableInOneRange(items: seq<Segment>, tolerance: real, at: real) returns (k: nat)
    requires Timed(items, tolerance) && Resolve(items, at).Playable?
    ensures var ranges := Ranges(items, tolerance);
            k < |ranges| && InRange(ranges[k], at) && forall j :: 0 <= j < |ranges| && InRange(ranges[j], at) ==> j == k
  {
    k := RangeOf(items, tolerance, FirstHolding(items, at).value);
    RangesPartition(items, tolerance);
  }

  /** `at` lies after range `k - 1` (if any) and before range `k` (if any). */
  predicate Between(ranges: seq<Range>, k: nat, at: real)
    requires k <= |ranges|
  {
    (k > 0 ==> ranges[k - 1].end <= at) && (k < |ranges| ==> at < ranges[k].start)
  }

  lemma {:induction false} SegmentBesideGap(items: seq<Segment>, tolerance: real, k: nat, at: real, i: nat)
    requires Timed(items, tolerance) && i < |items|
    requires k <= |Ranges(items, tolerance)| && Between(Ranges(items, tolerance), k, at)
    ensures var ranges := Ranges(items, tolerance);
            && !Holds(items[i], at)
            && (items[i].end <= at ==> k > 0 && items[i].end <= ranges[k - 1].end)
            && (items[i].start > at ==> k < |ranges| && ranges[k].start <= items[i].start)
  {
    var ranges := Ranges(items, tolerance);
    RangesPartition(items, tolerance);
    var r := RangeOf(items, tolerance, i);
    if r < k {
      assert r < k - 1 ==> ranges[r].end < ranges[k - 1].start;
    } else {
      assert k < r ==> ranges[k].end < ranges[r].start;
    }
  }

  /** A gap resolves to the greatest end before it and the least start after it. */
  lemma {:induction false} GapBounds(items: seq<Segment>, at: real, previous: Option<real>, next: Option<real>)
    requires forall i :: 0 <= i < |items| ==> !Holds(items[i], at)
    requires forall i :: 0 <= i < |items| && items[i].end <= at ==> previous.Some? && items[i].end <= previous.value
    requires forall i :: 0 <= i < |items| && items[i].start > at ==> next.Some? && next.value <= items[i].start
    requires previous.Some? ==> exists i :: 0 <= i < |items| && items[i].end == previous.value <= at
    requires next.Some? ==> exists i :: 0 <= i < |items| && items[i].start == next.value > at
    ensures Resolve(items, at) == Gap(previous, next)
  {}

  /** The instants before, between and after the ranges resolve to exactly the neighbouring range bounds. */
  lemma {:induction false} GapsMatchRanges(items: seq<Segment>, tolerance: real, k: nat, at: real)
    requires Timed(items, tolerance)
    requires k <= |Ranges(items, tolerance)| && Between(Ranges(items, tolerance), k, at)
    ensures var ranges := Ranges(items, tolerance);
            Resolve(items, at) == Gap(if k > 0 then Some(ranges[k - 1].end) else None,
                                      if k < |ranges| then Some(ranges[k].start) else None)
  {
    var ranges := Ranges(items, tolerance);
    var previous := if k > 0 then Some(ranges[k - 1].end) else None;
    var next := if k < |ranges| then Some(ranges[k].start) else None;
    forall i | 0 <= i < |items|
      ensures !Holds(items[i], at)
      ensures items[i].end <= at ==> previous.Some? && items[i].end <= previous.value
      ensures items[i].start > at ==> next.Some? && next.value <= items[i].start
    {
      SegmentBesideGap(items, tolerance, k, at, i);
    }
    if k > 0 { var _, b := RangeBounds(items, tolerance, k - 1); }
    if k < |ranges| { var a, _ := RangeBounds(items, tolerance, k); }
    GapBounds(items, at, previous, next);
  }

  predicate BoundWithin(item: Segment, x: real, y: real) {
    x < item.end <= y || x < item.start <= y
  }

  lemma {:induction false} BoundsArePlayable(items: seq<Segment>, i: nat, x: real, y: real) returns (t: real)
    requires PositiveLengths(items) && i < |items| && BoundWithin(items[i], x, y)
    ensures x <= t <= y && Resolve(items, t).Playable?
  {
    t := if x < items[i].start <= y then items[i].start else Max(x, items[i].start);
    assert Holds(items[i], t);
  }

  lemma {:induction false} SameBounds(items: seq<Segment>, x: real, y: real)
    requires x <= y && forall i :: 0 <= i < |items| ==> !BoundWithin(items[i], x, y)
    ensures PreviousEnd(items, x) == PreviousEnd(items, y) && NextStart(items, x) == NextStart(items, y)
  {
    if items != [] {
      SameBounds(items[..|items| - 1], x, y);
    }
  }

  /** Two instants of one gap resolve to the same bounds. */
  lemma {:induction false} OneGapOneAnswer(items: seq<Segment>, x: real, y: real)
    requires PositiveLengths(items) && x <= y
    requires forall t: real :: x <= t <= y ==> Resolve(items, t).Gap?
    ensures Resolve(items, x) == Resolve(items, y)
  {
    forall i | 0 <= i < |items| ensures !BoundWithin(items[i], x, y) {
      if BoundWithin(items[i], x, y) {
        var t := BoundsArePlayable(items, i, x, y);
        assert false;
      }
    }
    SameBounds(items, x, y);
    assert Resolve(items, x).Gap? && Resolve(items, y).Gap?;
  }

  // ----- normalising a continuous session -----

  function NormalizedAt(items: seq<Segment>, i: nat): Segment
    requires i < |items|
  {
    var item := items[i];
    if i + 1 < |items| then item.(start := items[i + 1].start - item.duration, end := items[i + 1].start)
    else item.(end := item.start + item.duration)
  }

  function Normalized(items: seq<Segment>): seq<Segment> {
    seq(|items|, i requires 0 <= i < |items| => NormalizedAt(items, i))
  }

  method NormalizeContinuitySession(items: seq<Segment>) returns (normalized: seq<Segment>)
    ensures normalized == Normalized(items)
  {
    normalized := [];
    for i := 0 to |items|
      invariant normalized == Normalized(items)[..i]
    {
      var item := items[i];
      var rawEnd := item.start + item.duration;
      if i + 1 < |items| {
        var nextBoundary := items[i + 1].start;
        normalized := normalized + [item.(start := nextBoundary - item.duration, end := nextBoundary)];
      } else {
        normalized := normalized + [item.(end := rawEnd)];
      }
    }
  }

  /** From the end of each segment to the start of the next. */
  function Deltas(items: seq<Segment>): seq<real> {
    if |items| < 2 then []
    else seq(|items| - 1, i requires 0 <= i < |items| - 1 => items[i + 1].start - items[i].end)
  }

  predicate EndsFollowDurations(items: seq<Segment>) {
    forall i :: 0 <= i < |items| ==> items[i].end == items[i].start + items[i].duration
  }

  /** Normalising keeps ids and durations and makes every segment as long as its media. */
  lemma {:induction false} NormalizingKeepsMedia(items: seq<Segment>)
    ensures |Normalized(items)| == |items| && EndsFollowDurations(Normalized(items))
    ensures forall i :: 0 <= i < |items| ==>
            Normalized(items)[i].id == items[i].id && Normalized(items)[i].duration == items[i].duration
  {}

  /** Normalising moves every boundary one place to the left: the first raw delta is gone, the last is 0. */
  lemma {:induction false} NormalizingShiftsDeltas(items: seq<Segment>)
    requires |items| >= 2 && EndsFollowDurations(items)
    ensures Deltas(Normalized(items)) == Deltas(items)[1..] + [0.0]
  {
    var normalized, raw := Normalized(items), Deltas(items);
    var deltas := Deltas(normalized);
    assert |deltas| == |raw| == |raw[1..] + [0.0]|;
    forall i | 0 <= i < |deltas| ensures deltas[i] == (raw[1..] + [0.0])[i] {
      assert deltas[i] == normalized[i + 1].start - items[i + 1].start;
    }
  }

  function CountAbove(deltas: seq<real>, tolerance: real): nat {
    if deltas == [] then 0 else (if deltas[0] > tolerance then 1 else 0) + CountAbove(deltas[1..], tolerance)
  }

  predicate EndsSorted(items: seq<Segment>) {
    forall i, j :: 0 <= i < j < |items| ==> items[i].end <= items[j].end
  }

  /** With rising ends a range breaks exactly where a boundary exceeds the tolerance. */
  lemma {:induction false} RangesBreakAtDeltas(items: seq<Segment>, n: nat, current: Range, tolerance: real)
    requires EndsSorted(items) && 1 <= n <= |items| && current.end == items[n - 1].end
    ensures |RangesFrom(current, items[n..], tolerance)| == 1 + CountAbove(Deltas(items)[n - 1..], tolerance)
    decreases |items| - n
  {
    if n < |items| {
      var rest, deltas := items[n..], Deltas(items)[n - 1..];
      assert rest[1..] == items[n + 1..] && deltas[1..] == Deltas(items)[n..];
      assert deltas[0] == items[n].start - items[n - 1].end;
      var item := items[n];
      RangesBreakAtDeltas(items, n + 1, if item.start <= current.end + tolerance
                                        then Range(current.start, Max(current.end, item.end), current.ids + [item.id])
                                        else Range(item.start, item.end, [item.id]), tolerance);
    } else {
      assert items[n..] == [];
    }
  }

  lemma {:induction false} CountAboveSnoc(deltas: seq<real>, last: real, tolerance: real)
    ensures CountAbove(deltas + [last], tolerance) == CountAbove(deltas, tolerance) + if last > tolerance then 1 else 0
  {
    if deltas == [] {
      assert (deltas + [last])[1..] == [];
    } else {
      assert (deltas + [last])[1..] == deltas[1..] + [last];
      CountAboveSnoc(deltas[1..], last, tolerance);
    }
  }

  lemma {:induction false} NormalizedEndsSorted(items: seq<Segment>)
    requires StartsSorted(items) && forall i :: 0 <= i < |items| ==> items[i].duration >= 0.0
    ensures EndsSorted(Normalized(items))
  {}

  lemma {:induction false} CountAboveZero(deltas: seq<real>, tolerance: real)
    ensures CountAbove(deltas, tolerance) == 0 <==> forall i :: 0 <= i < |deltas| ==> deltas[i] <= tolerance
  {
    if deltas != [] {
      CountAboveZero(deltas[1..], tolerance);
      assert forall i :: 1 <= i < |deltas| ==> deltas[i] == deltas[1..][i - 1];
    }
  }

  lemma {:induction false} RangeCount(items: seq<Segment>, tolerance: real)
    requires items != []
    ensures EndsSorted(items) ==> |Ranges(items, tolerance)| == 1 + CountAbove(Deltas(items), tolerance)
  {
    if EndsSorted(items) {
      RangesBreakAtDeltas(items, 1, FirstRange(items), tolerance);
      assert Deltas(items)[0..] == Deltas(items);
    }
  }

  /** However early the first hook start was, a normalised session breaks into ranges exactly at the raw
      boundaries after the first that exceed the tolerance; with none it is a single range. */
  lemma {:induction false} SessionRanges(items: seq<Segment>, tolerance: real)
    requires |items| >= 2 && tolerance >= 0.0 && StartsSorted(items) && EndsFollowDurations(items)
    requires forall i :: 0 <= i < |items| ==> items[i].duration >= 0.0
    ensures |Ranges(Normalized(items), tolerance)| == 1 + CountAbove(Deltas(items)[1..], tolerance)
    ensures |Ranges(Normalized(items), tolerance)| == 1 <==>
            forall i :: 1 <= i < |Deltas(items)| ==> Deltas(items)[i] <= tolerance
  {
    var later := Deltas(items)[1..];
    NormalizingShiftsDeltas(items);
    CountAboveSnoc(later, 0.0, tolerance);
    CountAboveZero(later, tolerance);
    assert forall i :: 1 <= i < |Deltas(items)| ==> Deltas(items)[i] == later[i - 1];
    RangeCount(Normalized(items), tolerance);
    NormalizedEndsSorted(items);
  }
}
