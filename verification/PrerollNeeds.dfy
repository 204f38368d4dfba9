/** What the prebuffer promotes and collects: only what it must, whatever the settings. */
module PrerollNeeds {
  import opened Wrappers
  import opened Windows
  import opened Preroll
  import opened PrerollRuns

  // ----- one pass -----

  /** A listed fragment with this path overlaps one of the windows. */
  predicate NeededPath(fragments: seq<Fragment>, windows: seq<Window>, path: string) {
    exists f :: f in fragments && f.path == path && OverlapsAny(f.Span(), windows)
  }

  /** A listed fragment with this path is older than the cutoff, and promoted or overlapping no window. */
  predicate CollectablePath(m: Monitor, fragments: seq<Fragment>, windows: seq<Window>, cutoff: real, path: string) {
    exists f :: f in fragments && f.path == path && f.end < cutoff
                && (path in m.promoted || !OverlapsAny(f.Span(), windows))
  }

  lemma {:induction false} NeededPathGrows(fragments: seq<Fragment>, windows: seq<Window>, path: string)
    requires fragments != []
    ensures var n := |fragments| - 1;
            NeededPath(fragments, windows, path) <==>
            NeededPath(fragments[..n], windows, path)
            || (fragments[n].path == path && OverlapsAny(fragments[n].Span(), windows))
  {
    var n := |fragments| - 1;
    assert forall f :: f in fragments <==> f in fragments[..n] || f == fragments[n];
  }

  /** The promotion loop adds only paths a window needs, and all of them unless it fails. */
  lemma {:induction false} PromoteAllExactly(cfg: Config, m: Monitor, fragments: seq<Fragment>, windows: seq<Window>,
      path: string)
    ensures var after := PromoteAll(cfg, m, fragments, windows);
            && (path in m.promoted ==> path in after.promoted)
            && (path in after.promoted ==> path in m.promoted || NeededPath(fragments, windows, path))
            && (after.failure.None? && NeededPath(fragments, windows, path) ==> path in after.promoted)
  {
    if fragments != [] {
      var n := |fragments| - 1;
      PromoteAllExactly(cfg, m, fragments[..n], windows, path);
      NeededPathGrows(fragments, windows, path);
    }
  }

  lemma {:induction false} CollectablePathGrows(m: Monitor, fragments: seq<Fragment>, windows: seq<Window>,
      cutoff: real, path: string)
    requires fragments != []
    ensures var n := |fragments| - 1;
            var last := fragments[n];
            CollectablePath(m, fragments, windows, cutoff, path) <==>
            CollectablePath(m, fragments[..n], windows, cutoff, path)
            || (last.path == path && last.end < cutoff && (path in m.promoted || !OverlapsAny(last.Span(), windows)))
  {
    var n := |fragments| - 1;
    assert forall f :: f in fragments <==> f in fragments[..n] || f == fragments[n];
  }

  /** The collector removes exactly the files older than the cutoff that are promoted or needed by no window. */
  lemma {:induction false} CollectAllExactly(m: Monitor, fragments: seq<Fragment>, windows: seq<Window>, cutoff: real,
      path: string)
    ensures var after := CollectAll(m, fragments, windows, cutoff);
            && after.promoted == m.promoted
            && (path in after.files <==>
                  path in m.files && !CollectablePath(m, fragments, windows, cutoff, path))
            && (path in after.gcRemoved <==> path in m.gcRemoved || (path in m.files && path !in after.files))
  {
    if fragments != [] {
      CollectAllFacts(m, fragments[..|fragments| - 1], windows, cutoff);
      CollectAllExactly(m, fragments[..|fragments| - 1], windows, cutoff, path);
      CollectablePathGrows(m, fragments, windows, cutoff, path);
    }
  }

  // ----- whole runs: only what an event needs is promoted -----

  /** The copy of the file was complete, has media, and took its final name. */
  predicate Verified(cfg: Config, path: string) {
    cfg.copied(path) == Whole && cfg.probe(path).Some? && cfg.probe(path).value > 0.0 && cfg.renamed(path)
  }

  predicate Warranted(cfg: Config, m: Monitor, f: Fragment) {
    f in Listing(cfg.stream, m.rows) && OverlapsAny(f.Span(), Required(cfg, m.events))
  }

  predicate AllWarranted(cfg: Config, m: Monitor) {
    && (forall p :: p in m.published ==> p in m.promoted)
    && (forall p :: p in m.promoted ==>
          m.promoted[p].path == p && Warranted(cfg, m, m.promoted[p]) && Verified(cfg, p))
  }

  /** What the failure says is so of a file that an event needs. */
  ghost predicate Explained(cfg: Config, m: Monitor, failure: Failure) {
    && (exists f: Fragment :: f.path == failure.path && Warranted(cfg, m, f))
    && match failure
       case Disappeared(p) => p !in m.files
       case CopyRaised(p, begun) => cfg.copied(p) == if begun then Interrupted else Unopened
       case SizeMismatch(p) => cfg.copied(p) == Short
       case ProbeRaised(p) => cfg.copied(p) == Whole && cfg.probe(p).None?
       case InvalidMedia(p) => cfg.copied(p) == Whole && cfg.probe(p).Some? && cfg.probe(p).value <= 0.0
       case PublishRaised(p) => cfg.copied(p) == Whole && !cfg.renamed(p)
  }

  ghost predicate Honest(cfg: Config, m: Monitor) {
    AllWarranted(cfg, m) && (m.failure.Some? ==> Explained(cfg, m, m.failure.value))
  }

  lemma {:induction false} RequiredGrows(cfg: Config, events: seq<real>, eventTime: real, f: Window)
    requires OverlapsAny(f, Required(cfg, events))
    ensures OverlapsAny(f, Required(cfg, events + [eventTime]))
  {
    var w := EventWindow(cfg, eventTime);
    assert EventWindows(cfg, events + [eventTime]) == EventWindows(cfg, events) + [w];
    var m :| m in Required(cfg, events) && Overlaps(f, m);
    var outer := MergingGrows(m, EventWindows(cfg, events), w, 0.0);
  }

  lemma {:induction false} RequiredGrowsBy(cfg: Config, events: seq<real>, times: seq<real>, f: Window)
    requires OverlapsAny(f, Required(cfg, events))
    ensures OverlapsAny(f, Required(cfg, events + times))
  {
    if times == [] {
      assert events + times == events;
    } else {
      var init := times[..|times| - 1];
      RequiredGrowsBy(cfg, events, init, f);
      RequiredGrows(cfg, events + init, times[|times| - 1], f);
      assert events + init + [times[|times| - 1]] == events + times;
    }
  }

  /** What was warranted stays so as rows and events are added. */
  lemma {:induction false} WarrantedStays(cfg: Config, m: Monitor, rows: seq<HookRow>, times: seq<real>, after: Monitor,
      f: Fragment)
    requires Warranted(cfg, m, f) && after.rows == m.rows + rows && after.events == m.events + times
    ensures Warranted(cfg, after, f)
  {
    ListingGrows(cfg.stream, m.rows, rows, f);
    RequiredGrowsBy(cfg, m.events, times, f.Span());
  }

  lemma {:induction false} AllWarrantedStays(cfg: Config, m: Monitor, rows: seq<HookRow>, times: seq<real>,
      after: Monitor)
    requires AllWarranted(cfg, m) && after.rows == m.rows + rows && after.events == m.events + times
    requires after.promoted == m.promoted && after.published == m.published
    ensures AllWarranted(cfg, after)
  {
    forall p | p in after.promoted ensures Warranted(cfg, after, after.promoted[p]) {
      WarrantedStays(cfg, m, rows, times, after, m.promoted[p]);
    }
  }

  lemma {:induction false} PromotionIsWarranted(cfg: Config, m: Monitor, f: Fragment)
    requires AllWarranted(cfg, m) && Warranted(cfg, m, f) && f.path in m.files && Raised(cfg, f.path).None?
    ensures AllWarranted(cfg, Promote(cfg, m, f))
  {
    var after := Promote(cfg, m, f);
    forall p | p in after.promoted ensures after.promoted[p].path == p && Warranted(cfg, after, after.promoted[p]) {
      if p != f.path {
        assert Warranted(cfg, m, m.promoted[p]);
      }
    }
  }

  lemma {:induction false} FailureIsExplained(cfg: Config, m: Monitor, f: Fragment, failure: Failure)
    requires Warranted(cfg, m, f) && Promote(cfg, m, f).failure == Some(failure) && m.failure.None?
    ensures Explained(cfg, Promote(cfg, m, f), failure)
  {
    assert Warranted(cfg, Promote(cfg, m, f), f);
  }

  lemma {:induction false} PromoteIsHonest(cfg: Config, m: Monitor, f: Fragment)
    requires AllWarranted(cfg, m) && m.failure.None? && Warranted(cfg, m, f)
    ensures Honest(cfg, Promote(cfg, m, f))
  {
    var after := Promote(cfg, m, f);
    if after.failure.None? {
      PromotionIsWarranted(cfg, m, f);
    } else {
      FailureIsExplained(cfg, m, f, after.failure.value);
      assert m.events + [] == m.events && m.rows + [] == m.rows;
      AllWarrantedStays(cfg, m, [], [], after);
    }
  }

  lemma {:induction false} PromoteAllIsHonest(cfg: Config, m: Monitor, fragments: seq<Fragment>, windows: seq<Window>)
    requires AllWarranted(cfg, m) && m.failure.None? && windows == Required(cfg, m.events)
    requires forall f :: f in fragments ==> f in Listing(cfg.stream, m.rows)
    ensures Honest(cfg, PromoteAll(cfg, m, fragments, windows))
  {
    if fragments != [] {
      var init, f := fragments[..|fragments| - 1], fragments[|fragments| - 1];
      assert f in fragments && forall g :: g in init ==> g in fragments;
      PromoteAllIsHonest(cfg, m, init, windows);
      PromoteAllFacts(cfg, m, init, windows);
      var before := PromoteAll(cfg, m, init, windows);
      if before.failure.None? && OverlapsAny(f.Span(), windows) {
        PromoteIsHonest(cfg, before, f);
      }
    }
  }

  lemma {:induction false} AfterCollectionFacts(cfg: Config, m: Monitor, tick: Tick, windows: seq<Window>)
    ensures var after := AfterCollection(cfg, m, tick, windows);
            && after.rows == m.rows + tick.hooksBetween
            && after == m.(rows := after.rows, files := after.files, gcRemoved := after.gcRemoved)
  {
    AnnounceAllFacts(cfg, m, tick.hooksBetween);
    var listed := AnnounceAll(cfg, m, tick.hooksBetween);
    var fragments := Listing(cfg.stream, listed.rows);
    CollectAllFacts(listed, fragments, windows, tick.now - cfg.buffer);
    assert AfterCollection(cfg, m, tick, windows) == CollectAll(listed, fragments, windows, tick.now - cfg.buffer);
  }

  lemma {:induction false} CollectionIsHonest(cfg: Config, m: Monitor, after: Monitor, rows: seq<HookRow>)
    requires AllWarranted(cfg, m) && m.failure.None? && after.rows == m.rows + rows
    requires after == m.(rows := after.rows, files := after.files, gcRemoved := after.gcRemoved)
    ensures Honest(cfg, after)
  {
    assert m.events + [] == m.events;
    AllWarrantedStays(cfg, m, rows, [], after);
  }

  lemma {:induction false} FinishPassIsHonest(cfg: Config, m: Monitor, tick: Tick)
    requires AllWarranted(cfg, m) && m.failure.None?
    ensures Honest(cfg, FinishPass(cfg, m, tick, Required(cfg, m.events)))
  {
    var windows := Required(cfg, m.events);
    PromoteAllIsHonest(cfg, m, Listing(cfg.stream, m.rows), windows);
    var after := AfterPromotion(cfg, m, windows);
    if after.failure.None? {
      AfterCollectionFacts(cfg, after, tick, windows);
      CollectionIsHonest(cfg, after, AfterCollection(cfg, after, tick, windows), tick.hooksBetween);
    }
  }

  lemma {:induction false} BeginningIsHonest(cfg: Config, m: Monitor, tick: Tick)
    requires AllWarranted(cfg, m)
    ensures AllWarranted(cfg, BeforePromotion(cfg, m, tick)) && BeforePromotion(cfg, m, tick).failure == m.failure
  {
    BeforePromotionFacts(cfg, m, tick);
    TriggerAllFacts(m.(clock := tick.now), tick.eventTimes);
    AnnounceAllFacts(cfg, TriggerAll(m.(clock := tick.now), tick.eventTimes), tick.hooksBefore);
    AllWarrantedStays(cfg, m, tick.hooksBefore, tick.eventTimes, BeforePromotion(cfg, m, tick));
  }

  lemma {:induction false} IterateIsHonest(cfg: Config, m: Monitor, tick: Tick)
    requires Honest(cfg, m)
    ensures Honest(cfg, Iterate(cfg, m, tick))
  {
    if m.failure.None? {
      BeginningIsHonest(cfg, m, tick);
      FinishPassIsHonest(cfg, BeforePromotion(cfg, m, tick), tick);
    }
  }

  lemma {:induction false} RunIsHonest(cfg: Config, clock: real, ticks: seq<Tick>)
    ensures Honest(cfg, Run(cfg, clock, ticks))
  {
    if ticks != [] {
      RunIsHonest(cfg, clock, ticks[..|ticks| - 1]);
      IterateIsHonest(cfg, Run(cfg, clock, ticks[..|ticks| - 1]), ticks[|ticks| - 1]);
    }
  }

  /** A hook announced the file for the stream, and the media it announced overlaps the merged windows of
      the events fired; media of positive length overlaps the window of one of them. */
  ghost predicate Called(cfg: Config, m: Monitor, path: string) {
    exists row :: row in m.rows && !row.dropped && row.stream == cfg.stream && row.path == path
      && OverlapsAny(Window(row.start, row.start + row.duration), Required(cfg, m.events))
      && (row.duration > 0.0 ==>
            exists e :: e in m.events && row.start < e + cfg.postRoll && row.start + row.duration > e - cfg.preRoll)
  }

  lemma {:induction false} WarrantedIsCalled(cfg: Config, m: Monitor, f: Fragment)
    requires Warranted(cfg, m, f)
    ensures Called(cfg, m, f.path)
  {
    ListingIsExact(cfg.stream, m.rows, f);
    var i :| 0 <= i < |m.rows| && !m.rows[i].dropped && m.rows[i].stream == cfg.stream && f.path == m.rows[i].path
             && f.start == m.rows[i].start && f.end == m.rows[i].start + m.rows[i].duration;
    if f.start < f.end {
      MergingKeepsOverlapExactly(f.Span());
      var w :| w in EventWindows(cfg, m.events) && Overlaps(f.Span(), w);
      var k :| 0 <= k < |m.events| && EventWindows(cfg, m.events)[k] == w;
      assert m.events[k] in m.events;
    }
    assert m.rows[i] in m.rows;
  }

  /** EVENT_ONLY, over every run with any settings: nothing is promoted that no event needs, and only from a
      complete copy with media that took its final name. */
  lemma {:induction false} OnlyNeededIsPromoted(cfg: Config, clock: real, ticks: seq<Tick>, path: string)
    requires path in Run(cfg, clock, ticks).published
    ensures Called(cfg, Run(cfg, clock, ticks), path)
    ensures cfg.copied(path) == Whole && cfg.probe(path).Some? && cfg.probe(path).value > 0.0 && cfg.renamed(path)
  {
    RunIsHonest(cfg, clock, ticks);
    WarrantedIsCalled(cfg, Run(cfg, clock, ticks), Run(cfg, clock, ticks).promoted[path]);
  }

  /** A run fails only over a file an event needs, and for the reason it gives. */
  lemma {:induction false} FailuresAreTrue(cfg: Config, clock: real, ticks: seq<Tick>)
    requires Run(cfg, clock, ticks).failure.Some?
    ensures var m := Run(cfg, clock, ticks);
            Explained(cfg, m, m.failure.value) && Called(cfg, m, m.failure.value.path)
  {
    RunIsHonest(cfg, clock, ticks);
    var m := Run(cfg, clock, ticks);
    var f: Fragment :| f.path == m.failure.value.path && Warranted(cfg, m, f);
    WarrantedIsCalled(cfg, m, f);
  }

  lemma {:induction false} AnnounceAllKeepsFiles(cfg: Config, m: Monitor, rows: seq<HookRow>)
    ensures m.files <= AnnounceAll(cfg, m, rows).files
  {
    if rows != [] {
      AnnounceAllKeepsFiles(cfg, m, rows[..|rows| - 1]);
    }
  }

  lemma {:induction false} BeforePromotionKeepsFiles(cfg: Config, m: Monitor, tick: Tick)
    ensures m.files <= BeforePromotion(cfg, m, tick).files
  {
    TriggerAllFacts(m.(clock := tick.now), tick.eventTimes);
    AnnounceAllKeepsFiles(cfg, TriggerAll(m.(clock := tick.now), tick.eventTimes), tick.hooksBefore);
  }

  lemma {:induction false} CollectionCollects(cfg: Config, m: Monitor, tick: Tick, windows: seq<Window>, path: string)
    requires path in m.files && path !in AfterCollection(cfg, m, tick, windows).files
    ensures var after := AfterCollection(cfg, m, tick, windows);
            && after.rows == m.rows + tick.hooksBetween && after.events == m.events
            && after.failure == m.failure && after.promoted == m.promoted
            && CollectablePath(after, Listing(cfg.stream, after.rows), windows, tick.now - cfg.buffer, path)
  {
    AfterCollectionFacts(cfg, m, tick, windows);
    AnnounceAllFacts(cfg, m, tick.hooksBetween);
    AnnounceAllKeepsFiles(cfg, m, tick.hooksBetween);
    var listed := AnnounceAll(cfg, m, tick.hooksBetween);
    CollectAllExactly(listed, Listing(cfg.stream, listed.rows), windows, tick.now - cfg.buffer, path);
  }

  lemma {:induction false} FinishPassCollects(cfg: Config, m: Monitor, tick: Tick, windows: seq<Window>, path: string)
    requires path in m.files && path !in FinishPass(cfg, m, tick, windows).files
    ensures var after := FinishPass(cfg, m, tick, windows);
            && after.events == m.events
            && CollectablePath(after, Listing(cfg.stream, after.rows), windows, tick.now - cfg.buffer, path)
  {
    PromoteAllFacts(cfg, m, Listing(cfg.stream, m.rows), windows);
    CollectionCollects(cfg, AfterPromotion(cfg, m, windows), tick, windows, path);
  }

  /** A pass takes from the buffer only files listed as ending before the buffer's length ago, and of those
      that the windows of the events need only promoted ones. */
  lemma {:induction false} OnlyOldIsCollected(cfg: Config, clock: real, ticks: seq<Tick>, tick: Tick, path: string)
    requires path in Run(cfg, clock, ticks).files && path !in Run(cfg, clock, ticks + [tick]).files
    ensures var after := Run(cfg, clock, ticks + [tick]);
            exists f :: f in Listing(cfg.stream, after.rows) && f.path == path && f.end < tick.now - cfg.buffer
                        && (path in after.promoted || !OverlapsAny(f.Span(), Required(cfg, after.events)))
  {
    assert (ticks + [tick])[..|ticks|] == ticks;
    var m := Run(cfg, clock, ticks);
    BeforePromotionKeepsFiles(cfg, m, tick);
    var before := BeforePromotion(cfg, m, tick);
    FinishPassCollects(cfg, before, tick, Required(cfg, before.events), path);
  }
}
