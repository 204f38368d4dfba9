/** Time windows of the event pre-roll programs: merging them and asking what promoted media covers. */
module Windows {
  import opened Sorting
  import opened Wrappers

  datatype Window = Window(start: real, end: real)

  /** Python's order on pairs. */
  predicate WindowLe(a: Window, b: Window) {
    a.start < b.start || (a.start == b.start && a.end <= b.end)
  }

  lemma {:induction false} WindowLeIsTotal()
    ensures TotalOrder(WindowLe)
  {}

  /** Two windows share an open stretch of time; a fragment is compared to a window the same way. */
  predicate Overlaps(f: Window, w: Window) {
    f.start < w.end && f.end > w.start
  }

  predicate OverlapsAny(f: Window, ws: seq<Window>) {
    exists w :: w in ws && Overlaps(f, w)
  }

  // ----- merging -----

  function MergeFrom(current: Window, rest: seq<Window>, tolerance: real): (merged: seq<Window>)
    ensures |merged| >= 1
    decreases |rest|
  {
    if rest == [] then [current]
    else if rest[0].start <= current.end + tolerance then
      MergeFrom(Window(current.start, Max(current.end, rest[0].end)), rest[1..], tolerance)
    else
      [current] + MergeFrom(rest[0], rest[1..], tolerance)
  }

  function Merged(windows: seq<Window>, tolerance: real): seq<Window> {
    if windows == [] then []
    else
      var ordered := Sort(WindowLe, windows);
      SortContents(WindowLe, windows);
      MergeFrom(ordered[0], ordered[1..], tolerance)
  }

  lemma {:induction false} MergeFromStep(finished: seq<Window>, current: Window, rest: seq<Window>, tolerance: real)
    requires rest != []
    ensures finished + MergeFrom(current, rest, tolerance) ==
            if rest[0].start <= current.end + tolerance
            then finished + MergeFrom(Window(current.start, Max(current.end, rest[0].end)), rest[1..], tolerance)
            else (finished + [current]) + MergeFrom(rest[0], rest[1..], tolerance)
  {}

  /** The loop of the source: the last merged window is widened in place or a new one is appended. */
  method MergeWindows(windows: seq<Window>, tolerance: real) returns (merged: seq<Window>)
    ensures merged == Merged(windows, tolerance)
  {
    if windows == [] {
      return [];
    }
    var ordered := Sort(WindowLe, windows);
    SortContents(WindowLe, windows);
    merged := [ordered[0]];
    ghost var finished: seq<Window> := [];
    for i := 1 to |ordered|
      invariant |merged| >= 1 && merged == finished + [merged[|merged| - 1]]
      invariant finished + MergeFrom(merged[|merged| - 1], ordered[i..], tolerance) == Merged(windows, tolerance)
    {
      var current := merged[|merged| - 1];
      MergeFromStep(finished, current, ordered[i..], tolerance);
      assert ordered[i..][1..] == ordered[i + 1..];
      if ordered[i].start <= current.end + tolerance {
        merged := merged[|merged| - 1 := Window(current.start, Max(current.end, ordered[i].end))];
      } else {
        merged, finished := merged + [ordered[i]], finished + [current];
      }
    }
  }

  ghost predicate Separated(ws: seq<Window>, tolerance: real) {
    forall i, j :: 0 <= i < j < |ws| ==> ws[j].start > ws[i].end + tolerance
  }

  ghost predicate StartsSorted(ws: seq<Window>) {
    forall i, j :: 0 <= i < j < |ws| ==> ws[i].start <= ws[j].start
  }

  lemma {:induction false} WidenedStaysSorted(current: Window, next: Window, tail: seq<Window>)
    requires SortedBy(WindowLe, [current] + ([next] + tail))
    ensures SortedBy(WindowLe, [Window(current.start, Max(current.end, next.end))] + tail)
  {
    var all := [current] + ([next] + tail);
    assert WindowLe(all[0], all[1]);
    assert forall i :: 0 <= i < |tail| ==> tail[i] == all[i + 2];
    SortedCons(WindowLe, Window(current.start, Max(current.end, next.end)), tail);
  }

  lemma {:induction false} PrependSeparate(current: Window, merged: seq<Window>, tolerance: real)
    requires merged != [] && SortedBy(WindowLe, merged) && Separated(merged, tolerance)
    requires WindowLe(current, merged[0]) && merged[0].start > current.end + tolerance
    ensures SortedBy(WindowLe, [current] + merged) && Separated([current] + merged, tolerance)
  {
    forall i | 0 <= i < |merged| ensures WindowLe(current, merged[i]) && merged[i].start > current.end + tolerance {
      if i > 0 { assert WindowLe(merged[0], merged[i]); }
    }
    SortedCons(WindowLe, current, merged);
    var all := [current] + merged;
    forall i, j | 0 <= i < j < |all| ensures all[j].start > all[i].end + tolerance {
      assert all[j] == merged[j - 1];
      if i > 0 { assert all[i] == merged[i - 1]; }
    }
  }

  lemma {:induction false} MergeFromShape(current: Window, rest: seq<Window>, tolerance: real)
    requires SortedBy(WindowLe, [current] + rest)
    ensures var merged := MergeFrom(current, rest, tolerance);
            && merged[0].start == current.start && WindowLe(current, merged[0])
            && SortedBy(WindowLe, merged) && Separated(merged, tolerance)
    decreases |rest|
  {
    if rest != [] {
      var next, tail := rest[0], rest[1..];
      assert rest == [next] + tail;
      assert WindowLe(([current] + rest)[0], ([current] + rest)[1]);
      if next.start <= current.end + tolerance {
        WidenedStaysSorted(current, next, tail);
        MergeFromShape(Window(current.start, Max(current.end, next.end)), tail, tolerance);
      } else {
        assert ([current] + rest)[1..] == rest;
        MergeFromShape(next, tail, tolerance);
        PrependSeparate(current, MergeFrom(next, tail, tolerance), tolerance);
      }
    }
  }

  /** A sorted list whose windows are further apart than the tolerance is left alone. */
  lemma {:induction false} MergeFromSeparated(current: Window, rest: seq<Window>, tolerance: real)
    requires Separated([current] + rest, tolerance)
    ensures MergeFrom(current, rest, tolerance) == [current] + rest
    decreases |rest|
  {
    if rest != [] {
      var all := [current] + rest;
      assert all[1].start > all[0].end + tolerance;
      assert forall i :: 0 <= i < |rest| ==> rest[i] == all[i + 1];
      MergeFromSeparated(rest[0], rest[1..], tolerance);
      assert rest == [rest[0]] + rest[1..];
    }
  }

  lemma {:induction false} SplitFirst<T>(s: seq<T>)
    requires s != []
    ensures s == [s[0]] + s[1..]
  {}

  /** merge_windows is a canonical form: sorted, further apart than the tolerance, the same for
      every order of the input, and a fixed point of itself. */
  lemma {:induction false} MergedIsCanonical(a: seq<Window>, b: seq<Window>, tolerance: real)
    requires multiset(a) == multiset(b)
    ensures SortedBy(WindowLe, Merged(a, tolerance)) && Separated(Merged(a, tolerance), tolerance)
    ensures Merged(a, tolerance) == Merged(b, tolerance)
    ensures Merged(Merged(a, tolerance), tolerance) == Merged(a, tolerance)
  {
    WindowLeIsTotal();
    SortIsSorted(WindowLe, a);
    SortIsSorted(WindowLe, b);
    SortedListingUnique(WindowLe, Sort(WindowLe, a), Sort(WindowLe, b));
    assert |a| == |multiset(a)| == |multiset(b)| == |b|;
    if a != [] {
      var ordered := Sort(WindowLe, a);
      SplitFirst(ordered);
      MergeFromShape(ordered[0], ordered[1..], tolerance);
      var merged := Merged(a, tolerance);
      SortOfSorted(WindowLe, merged);
      SplitFirst(merged);
      MergeFromSeparated(merged[0], merged[1..], tolerance);
    }
  }

  // ----- overlap is preserved by merging -----

  lemma {:induction false} OverlapsCons(f: Window, head: Window, tail: seq<Window>)
    ensures OverlapsAny(f, [head] + tail) <==> Overlaps(f, head) || OverlapsAny(f, tail)
  {
    assert forall w :: w in [head] + tail <==> w == head || w in tail;
  }

  lemma {:induction false} MergeFromOverlap(f: Window, current: Window, rest: seq<Window>)
    requires f.start < f.end
    requires SortedBy(WindowLe, [current] + rest)
    ensures OverlapsAny(f, MergeFrom(current, rest, 0.0)) <==> OverlapsAny(f, [current] + rest)
    decreases |rest|
  {
    if rest != [] {
      var next, tail := rest[0], rest[1..];
      assert rest == [next] + tail;
      assert WindowLe(([current] + rest)[0], ([current] + rest)[1]);
      OverlapsCons(f, current, rest);
      OverlapsCons(f, next, tail);
      if next.start <= current.end + 0.0 {
        var wider := Window(current.start, Max(current.end, next.end));
        WidenedStaysSorted(current, next, tail);
        MergeFromOverlap(f, wider, tail);
        OverlapsCons(f, wider, tail);
        assert Overlaps(f, wider) <==> Overlaps(f, current) || Overlaps(f, next);
      } else {
        assert ([current] + rest)[1..] == rest;
        MergeFromOverlap(f, next, tail);
        OverlapsCons(f, current, MergeFrom(next, tail, 0.0));
      }
    }
  }

  /** Merging at tolerance 0 loses and invents no overlap of a fragment of positive length. */
  lemma {:induction false} MergingKeepsOverlap(f: Window, windows: seq<Window>)
    requires f.start < f.end
    ensures OverlapsAny(f, Merged(windows, 0.0)) <==> OverlapsAny(f, windows)
  {
    WindowLeIsTotal();
    SortIsSorted(WindowLe, windows);
    forall w ensures w in Sort(WindowLe, windows) <==> w in windows { SortMembers(WindowLe, windows, w); }
    if windows != [] {
      var ordered := Sort(WindowLe, windows);
      SplitFirst(ordered);
      MergeFromOverlap(f, ordered[0], ordered[1..]);
    }
  }

  /** Two windows around an empty or reversed fragment that touch at its end: only their merger overlaps it. */
  lemma {:induction false} MergerAloneOverlaps(f: Window)
    requires f.start >= f.end
    ensures var ws := [Window(f.end - 1.0, f.end), Window(f.end, f.start + 1.0)];
            OverlapsAny(f, Merged(ws, 0.0)) && !OverlapsAny(f, ws)
  {
    var left, right, whole := Window(f.end - 1.0, f.end), Window(f.end, f.start + 1.0),
      Window(f.end - 1.0, f.start + 1.0);
    var ws := [left, right];
    WindowLeIsTotal();
    SortOfSorted(WindowLe, ws);
    assert ws[1..] == [right];
    assert MergeFrom(left, [right], 0.0) == MergeFrom(whole, [right][1..], 0.0) == [whole];
    assert whole in Merged(ws, 0.0) && Overlaps(f, whole);
  }

  /** Merging keeps the overlaps of a fragment, whatever the windows, exactly when its length is positive. */
  lemma {:induction false} MergingKeepsOverlapExactly(f: Window)
    ensures f.start < f.end <==> forall ws :: OverlapsAny(f, Merged(ws, 0.0)) <==> OverlapsAny(f, ws)
  {
    if f.start < f.end {
      forall ws ensures OverlapsAny(f, Merged(ws, 0.0)) <==> OverlapsAny(f, ws) {
        MergingKeepsOverlap(f, ws);
      }
    } else {
      MergerAloneOverlaps(f);
    }
  }

  // ----- windows added later -----

  /** The window starts after the fragment, whichever of its ends comes last. */
  predicate After(f: Window, w: Window) {
    f.start < w.start && f.end < w.start
  }

  lemma {:induction false} LaterWindowsDoNotReach(f: Window, current: Window, rest: seq<Window>)
    requires SortedBy(WindowLe, [current] + rest)
    requires forall i :: 0 <= i < |rest| ==> After(f, rest[i])
    ensures OverlapsAny(f, MergeFrom(current, rest, 0.0)) <==> Overlaps(f, current)
    decreases |rest|
  {
    if rest == [] {
      OverlapsCons(f, current, []);
      assert [current] + [] == [current];
    } else {
      var next, tail := rest[0], rest[1..];
      assert rest == [next] + tail;
      assert ([current] + rest)[1..] == rest;
      if next.start <= current.end + 0.0 {
        WidenedStaysSorted(current, next, tail);
        LaterWindowsDoNotReach(f, Window(current.start, Max(current.end, next.end)), tail);
      } else {
        LaterWindowsDoNotReach(f, next, tail);
        OverlapsCons(f, current, MergeFrom(next, tail, 0.0));
      }
    }
  }

  lemma {:induction false} LaterSuffixDoesNotMatter(f: Window, current: Window, a: seq<Window>, b: seq<Window>)
    requires SortedBy(WindowLe, [current] + a + b)
    requires forall i :: 0 <= i < |b| ==> After(f, b[i])
    ensures OverlapsAny(f, MergeFrom(current, a + b, 0.0)) <==> OverlapsAny(f, MergeFrom(current, a, 0.0))
    decreases |a|
  {
    var all := [current] + a + b;
    if a == [] {
      assert a + b == b && all == [current] + b;
      LaterWindowsDoNotReach(f, current, b);
      assert current in MergeFrom(current, a, 0.0);
    } else {
      var tail := a[1..];
      assert a + b == [a[0]] + (tail + b);
      assert (a + b)[1..] == tail + b;
      assert all == [current] + ([a[0]] + (tail + b));
      if a[0].start <= current.end + 0.0 {
        var wider := Window(current.start, Max(current.end, a[0].end));
        WidenedStaysSorted(current, a[0], tail + b);
        assert [wider] + tail + b == [wider] + (tail + b);
        LaterSuffixDoesNotMatter(f, wider, tail, b);
      } else {
        assert [a[0]] + tail + b == all[1..];
        LaterSuffixDoesNotMatter(f, a[0], tail, b);
        var long, short := MergeFrom(a[0], tail + b, 0.0), MergeFrom(a[0], tail, 0.0);
        OverlapsCons(f, current, long);
        OverlapsCons(f, current, short);
      }
    }
  }

  lemma {:induction false} SortedInsertion(windows: seq<Window>, w: Window) returns (k: nat)
    ensures var s := Sort(WindowLe, windows);
            && |s| == |windows| && k <= |s|
            && Sort(WindowLe, windows + [w]) == s[..k] + [w] + s[k..]
            && SortedBy(WindowLe, s) && SortedBy(WindowLe, s[..k] + [w] + s[k..])
            && forall i :: k <= i < |s| ==> s[i].start >= w.start
  {
    WindowLeIsTotal();
    SortIsSorted(WindowLe, windows);
    assert (windows + [w])[..|windows|] == windows;
    k := InsertSplits(WindowLe, w, Sort(WindowLe, windows));
  }

  lemma {:induction false} LateInsertion(f: Window, s: seq<Window>, k: nat, w: Window)
    requires After(f, w)
    requires s != [] && k <= |s| && SortedBy(WindowLe, s) && SortedBy(WindowLe, s[..k] + [w] + s[k..])
    requires forall i :: k <= i < |s| ==> s[i].start >= w.start
    ensures var t := s[..k] + [w] + s[k..];
            OverlapsAny(f, MergeFrom(t[0], t[1..], 0.0)) <==> OverlapsAny(f, MergeFrom(s[0], s[1..], 0.0))
  {
    var t := s[..k] + [w] + s[k..];
    SplitFirst(s);
    if k == 0 {
      assert t == [w] + s && t[1..] == s;
      LaterWindowsDoNotReach(f, w, s);
      LaterWindowsDoNotReach(f, s[0], s[1..]);
    } else {
      var a, b, b' := s[1..k], s[k..], [w] + s[k..];
      assert s[1..] == a + b;
      assert t[1..] == a + b' && t[0] == s[0];
      assert [s[0]] + a + b == s;
      assert [s[0]] + a + b' == t;
      assert forall i :: 0 <= i < |b| ==> b[i] == s[i + k];
      assert forall i :: 0 <= i < |b'| ==> After(f, b'[i]);
      LaterSuffixDoesNotMatter(f, s[0], a, b);
      LaterSuffixDoesNotMatter(f, s[0], a, b');
    }
  }

  /** A window that starts after a fragment's end never changes whether the merged windows touch that
      fragment, however it is chained to the windows already there. */
  lemma {:induction false} LaterWindowIsHarmless(f: Window, windows: seq<Window>, w: Window)
    requires After(f, w)
    ensures OverlapsAny(f, Merged(windows + [w], 0.0)) <==> OverlapsAny(f, Merged(windows, 0.0))
  {
    var s := Sort(WindowLe, windows);
    var k := SortedInsertion(windows, w);
    if windows == [] {
      assert s[..k] + [w] + s[k..] == [w];
      assert MergeFrom(w, [], 0.0) == [w];
    } else {
      LateInsertion(f, s, k, w);
    }
  }

  // ----- windows without length -----

  predicate NoLength(windows: seq<Window>) {
    forall i :: 0 <= i < |windows| ==> windows[i].end <= windows[i].start
  }

  lemma {:induction false} MergeFromNoLength(current: Window, rest: seq<Window>)
    requires SortedBy(WindowLe, [current] + rest) && NoLength([current] + rest)
    ensures NoLength(MergeFrom(current, rest, 0.0))
    decreases |rest|
  {
    var all := [current] + rest;
    assert all[0] == current;
    if rest != [] {
      var next, tail := rest[0], rest[1..];
      assert WindowLe(all[0], all[1]) && all[1] == next;
      assert rest == [next] + tail && all[1..] == rest;
      assert NoLength(rest);
      if next.start <= current.end + 0.0 {
        WidenedStaysSorted(current, next, tail);
        var wider := Window(current.start, Max(current.end, next.end));
        assert forall i :: 0 <= i < |tail| ==> tail[i] == rest[i + 1];
        MergeFromNoLength(wider, tail);
      } else {
        MergeFromNoLength(next, tail);
      }
    }
  }

  /** Windows without length merge into windows without length, which no fragment without length overlaps. */
  lemma {:induction false} NoLengthNoOverlap(f: Window, windows: seq<Window>)
    requires NoLength(windows) && f.end <= f.start
    ensures !OverlapsAny(f, Merged(windows, 0.0))
  {
    if windows != [] {
      var s := Sort(WindowLe, windows);
      WindowLeIsTotal();
      SortIsSorted(WindowLe, windows);
      forall i | 0 <= i < |s| ensures s[i].end <= s[i].start {
        assert s[i] in s;
        SortMembers(WindowLe, windows, s[i]);
        var j :| 0 <= j < |windows| && windows[j] == s[i];
      }
      SplitFirst(s);
      MergeFromNoLength(s[0], s[1..]);
    }
  }

  // ----- windows that abut -----

  predicate Abutting(ws: seq<Window>) {
    && (forall i :: 0 <= i < |ws| ==> ws[i].start < ws[i].end)
    && (forall i :: 0 < i < |ws| ==> ws[i].start == ws[i - 1].end)
  }

  lemma {:induction false} AbuttingAreSorted(ws: seq<Window>, i: nat, j: nat)
    requires Abutting(ws) && i < j < |ws|
    ensures WindowLe(ws[i], ws[j]) && ws[i].end <= ws[j].start
  {
    if i < j - 1 {
      AbuttingAreSorted(ws, i, j - 1);
    }
  }

  lemma {:induction false} AbuttingMergeFrom(current: Window, rest: seq<Window>)
    requires rest != [] ==> current.end == rest[0].start
    requires Abutting(rest)
    ensures MergeFrom(current, rest, 0.0)
         == [if rest == [] then current else Window(current.start, rest[|rest| - 1].end)]
    decreases |rest|
  {
    if rest != [] {
      assert rest[0].start < rest[0].end && forall i :: 0 <= i < |rest| - 1 ==> rest[1..][i] == rest[i + 1];
      AbuttingMergeFrom(Window(current.start, rest[0].end), rest[1..]);
    }
  }

  lemma {:induction false} SortOfAbutting(ws: seq<Window>)
    requires Abutting(ws)
    ensures Sort(WindowLe, ws) == ws
  {
    forall i, j | 0 <= i < j < |ws| ensures WindowLe(ws[i], ws[j]) {
      AbuttingAreSorted(ws, i, j);
    }
    WindowLeIsTotal();
    SortOfSorted(WindowLe, ws);
  }

  lemma {:induction false} AbuttingTail(ws: seq<Window>)
    requires Abutting(ws) && ws != []
    ensures Abutting(ws[1..]) && (|ws| > 1 ==> ws[0].end == ws[1..][0].start && ws[1..][|ws| - 2] == ws[|ws| - 1])
  {
    assert forall i :: 0 <= i < |ws| - 1 ==> ws[1..][i] == ws[i + 1];
  }

  lemma {:induction false} AbuttingMerge(ws: seq<Window>)
    requires Abutting(ws) && ws != []
    ensures Merged(ws, 0.0) == [Window(ws[0].start, ws[|ws| - 1].end)]
  {
    SortOfAbutting(ws);
    AbuttingTail(ws);
    AbuttingMergeFrom(ws[0], ws[1..]);
  }

  // ----- what merged intervals say about coverage -----

  /** `x` lies within `tolerance` of the window. */
  predicate Near(x: real, w: Window, tolerance: real) {
    w.start - tolerance <= x <= w.end + tolerance
  }

  ghost predicate NearAny(x: real, ws: seq<Window>, tolerance: real) {
    exists w :: w in ws && Near(x, w, tolerance)
  }

  predicate Inside(w: Window, outer: Window) {
    outer.start <= w.start && w.end <= outer.end
  }

  lemma {:induction false} MergeFromNear(x: real, current: Window, rest: seq<Window>, tolerance: real)
    requires tolerance >= 0.0
    requires NearAny(x, MergeFrom(current, rest, tolerance), tolerance)
    ensures Near(x, current, tolerance) || NearAny(x, rest, tolerance)
    decreases |rest|
  {
    if rest == [] {
    } else {
      var next, tail := rest[0], rest[1..];
      assert rest == [next] + tail;
      assert forall w :: w in tail ==> w in rest;
      if next.start <= current.end + tolerance {
        var wider := Window(current.start, Max(current.end, next.end));
        MergeFromNear(x, wider, tail, tolerance);
        assert next in rest;
        assert Near(x, wider, tolerance) ==> Near(x, current, tolerance) || Near(x, next, tolerance);
      } else {
        var merged := MergeFrom(next, tail, tolerance);
        var w :| w in [current] + merged && Near(x, w, tolerance);
        if w != current {
          assert w in merged;
          MergeFromNear(x, next, tail, tolerance);
        }
      }
    }
  }

  lemma {:induction false} MergeFromContains(w: Window, current: Window, rest: seq<Window>, tolerance: real)
    returns (outer: Window)
    requires SortedBy(WindowLe, [current] + rest)
    requires Inside(w, current) || w in rest
    ensures outer in MergeFrom(current, rest, tolerance) && Inside(w, outer)
    decreases |rest|
  {
    if rest == [] {
      outer := current;
    } else {
      var next, tail := rest[0], rest[1..];
      assert rest == [next] + tail;
      assert WindowLe(([current] + rest)[0], ([current] + rest)[1]);
      if next.start <= current.end + tolerance {
        WidenedStaysSorted(current, next, tail);
        outer := MergeFromContains(w, Window(current.start, Max(current.end, next.end)), tail, tolerance);
      } else if Inside(w, current) {
        outer := current;
        assert ([current] + MergeFrom(next, tail, tolerance))[0] == current;
      } else {
        assert ([current] + rest)[1..] == rest;
        outer := MergeFromContains(w, next, tail, tolerance);
      }
    }
  }

  /** Every instant near a merged interval is as near to one of the windows merged. */
  lemma {:induction false} MergedNear(x: real, windows: seq<Window>, tolerance: real)
    requires tolerance >= 0.0 && NearAny(x, Merged(windows, tolerance), tolerance)
    ensures NearAny(x, windows, tolerance)
  {
    forall w ensures w in Sort(WindowLe, windows) <==> w in windows { SortMembers(WindowLe, windows, w); }
    var s := Sort(WindowLe, windows);
    MergeFromNear(x, s[0], s[1..], tolerance);
    assert forall w :: w in s[1..] ==> w in s;
  }

  /** Every window lies inside one merged interval. */
  lemma {:induction false} MergedContains(w: Window, windows: seq<Window>, tolerance: real) returns (outer: Window)
    requires w in windows
    ensures outer in Merged(windows, tolerance) && Inside(w, outer)
  {
    WindowLeIsTotal();
    SortIsSorted(WindowLe, windows);
    SortMembers(WindowLe, windows, w);
    var s := Sort(WindowLe, windows);
    SplitFirst(s);
    outer := MergeFromContains(w, s[0], s[1..], tolerance);
  }

  // ----- one more window -----

  lemma {:induction false} FirstContains(current: Window, rest: seq<Window>, tolerance: real)
    ensures Inside(current, MergeFrom(current, rest, tolerance)[0])
    decreases |rest|
  {
    if rest != [] && rest[0].start <= current.end + tolerance {
      FirstContains(Window(current.start, Max(current.end, rest[0].end)), rest[1..], tolerance);
    }
  }

  /** Starting from a wider interval loses nothing. */
  lemma {:induction false} WiderCovers(m: Window, narrow: Window, wide: Window, rest: seq<Window>, tolerance: real)
      returns (outer: Window)
    requires m in MergeFrom(narrow, rest, tolerance) && Inside(narrow, wide)
    requires forall i :: 0 <= i < |rest| ==> wide.start <= rest[i].start
    ensures outer in MergeFrom(wide, rest, tolerance) && Inside(m, outer)
    decreases |rest|
  {
    if rest == [] {
      outer := wide;
    } else {
      var next, tail := rest[0], rest[1..];
      var wider := Window(wide.start, Max(wide.end, next.end));
      if next.start <= narrow.end + tolerance {
        outer := WiderCovers(m, Window(narrow.start, Max(narrow.end, next.end)), wider, tail, tolerance);
      } else if next.start <= wide.end + tolerance {
        if m == narrow {
          FirstContains(wider, tail, tolerance);
          outer := MergeFrom(wider, tail, tolerance)[0];
        } else {
          outer := WiderCovers(m, next, wider, tail, tolerance);
        }
      } else {
        outer := if m == narrow then wide else m;
      }
    }
  }

  /** A window put before the others. */
  lemma {:induction false} FrontCovers(m: Window, w: Window, rest: seq<Window>, tolerance: real) returns (outer: Window)
    requires rest != [] && m in MergeFrom(rest[0], rest[1..], tolerance)
    requires forall i :: 0 <= i < |rest| ==> w.start <= rest[i].start
    ensures outer in MergeFrom(w, rest, tolerance) && Inside(m, outer)
  {
    if rest[0].start <= w.end + tolerance {
      outer := WiderCovers(m, rest[0], Window(w.start, Max(w.end, rest[0].end)), rest[1..], tolerance);
    } else {
      outer := m;
    }
  }

  function Inserted(rest: seq<Window>, k: nat, w: Window): seq<Window>
    requires k <= |rest|
  {
    rest[..k] + [w] + rest[k..]
  }

  lemma {:induction false} InsertedTail(rest: seq<Window>, k: nat, w: Window)
    requires 0 < k <= |rest|
    ensures Inserted(rest, k, w)[0] == rest[0] && Inserted(rest, k, w)[1..] == Inserted(rest[1..], k - 1, w)
  {}

  /** The windows start in order, `w` belongs at position `k`, and none starts before `low`. */
  ghost predicate Placed(low: real, rest: seq<Window>, k: nat, w: Window) {
    && low <= w.start && StartsSorted(rest)
    && (forall i :: 0 <= i < |rest| ==> low <= rest[i].start)
    && (forall i :: 0 <= i < |rest| ==> if i < k then rest[i].start <= w.start else w.start <= rest[i].start)
  }

  lemma {:induction false} TailPlaced(low: real, rest: seq<Window>, k: nat, w: Window)
    requires 0 < k <= |rest| && Placed(low, rest, k, w)
    ensures Placed(low, rest[1..], k - 1, w) && Placed(rest[0].start, rest[1..], k - 1, w)
  {
    var tail := rest[1..];
    assert forall i :: 0 <= i < |tail| ==> tail[i] == rest[i + 1];
  }

  lemma {:induction false} AtFrontCovers(m: Window, current: Window, w: Window, rest: seq<Window>, tolerance: real)
      returns (outer: Window)
    requires m in MergeFrom(current, rest, tolerance) && Placed(current.start, rest, 0, w)
    ensures outer in MergeFrom(current, [w] + rest, tolerance) && Inside(m, outer)
  {
    assert ([w] + rest)[1..] == rest;
    if w.start <= current.end + tolerance {
      outer := WiderCovers(m, current, Window(current.start, Max(current.end, w.end)), rest, tolerance);
    } else if m == current {
      outer := current;
    } else {
      outer := FrontCovers(m, w, rest, tolerance);
    }
  }

  /** A window put among the others. */
  lemma {:induction false} InsertionCovers(m: Window, current: Window, rest: seq<Window>, k: nat, w: Window,
      tolerance: real) returns (outer: Window)
    requires k <= |rest| && m in MergeFrom(current, rest, tolerance) && Placed(current.start, rest, k, w)
    ensures outer in MergeFrom(current, Inserted(rest, k, w), tolerance) && Inside(m, outer)
    decreases |rest|
  {
    if k == 0 {
      assert Inserted(rest, 0, w) == [w] + rest;
      outer := AtFrontCovers(m, current, w, rest, tolerance);
    } else {
      TailPlaced(current.start, rest, k, w);
      InsertedTail(rest, k, w);
      if rest[0].start <= current.end + tolerance {
        outer := InsertionCovers(m, Window(current.start, Max(current.end, rest[0].end)), rest[1..], k - 1, w,
          tolerance);
      } else if m == current {
        outer := current;
      } else {
        outer := InsertionCovers(m, rest[0], rest[1..], k - 1, w, tolerance);
      }
    }
  }

  lemma {:induction false} InsertionIsPlaced(windows: seq<Window>, w: Window) returns (k: nat)
    ensures var s := Sort(WindowLe, windows);
            && k <= |s| == |windows| && Sort(WindowLe, windows + [w]) == Inserted(s, k, w)
            && (forall i :: 0 <= i < |s| ==> if i < k then s[i].start <= w.start else w.start <= s[i].start)
            && StartsSorted(s)
  {
    k := SortedInsertion(windows, w);
    var s := Sort(WindowLe, windows);
    var t := Inserted(s, k, w);
    forall i | 0 <= i < k ensures s[i].start <= w.start {
      assert t[i] == s[i] && t[k] == w;
      assert WindowLe(t[i], t[k]);
    }
  }

  /** Merging is monotone: a further window takes nothing away from the merged intervals. */
  lemma {:induction false} MergingGrows(m: Window, windows: seq<Window>, w: Window, tolerance: real)
      returns (outer: Window)
    requires m in Merged(windows, tolerance)
    ensures outer in Merged(windows + [w], tolerance) && Inside(m, outer)
  {
    var s := Sort(WindowLe, windows);
    var k := InsertionIsPlaced(windows, w);
    if k == 0 {
      assert Inserted(s, 0, w) == [w] + s && ([w] + s)[1..] == s;
      outer := FrontCovers(m, w, s, tolerance);
    } else {
      InsertedTail(s, k, w);
      assert forall i :: 0 <= i < |s[1..]| ==> s[1..][i] == s[i + 1];
      outer := InsertionCovers(m, s[0], s[1..], k - 1, w, tolerance);
    }
  }
}
