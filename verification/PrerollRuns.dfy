/** What the prebuffer keeps over whole runs, up to the coverage check. */
module PrerollRuns {
  import opened Wrappers
  import opened Windows
  import opened Coverage
  import opened Preroll

  lemma {:induction false} RunIsSafe(cfg: Config, clock: real, ticks: seq<Tick>, shortest: real)
    requires Suffices(cfg, shortest) && ValidRun(cfg, clock, ticks, shortest)
    ensures Safe(cfg, Run(cfg, clock, ticks))
  {
    if ticks != [] {
      var tick := ticks[|ticks| - 1];
      RunIsSafe(cfg, clock, ticks[..|ticks| - 1], shortest);
      assert RowsFit(cfg, tick.hooksBefore) && RowsFit(cfg, tick.hooksBetween);
      IterateIsSafe(cfg, Run(cfg, clock, ticks[..|ticks| - 1]), tick);
    }
  }

  /** Over every run with sufficient settings: the "disappeared before promotion" failure is unreachable,
      no path is promoted twice, and every listed fragment that overlaps the window of a past event, or of
      any event still to come, is promoted or still in the buffer. */
  lemma {:induction false} PrerollIsNeverLost(cfg: Config, clock: real, ticks: seq<Tick>, shortest: real,
                                              f: Fragment, eventTime: real)
    requires Suffices(cfg, shortest) && ValidRun(cfg, clock, ticks, shortest)
    ensures var m := Run(cfg, clock, ticks);
            && !(m.failure.Some? && m.failure.value.Disappeared?)
            && NoRepeats(m.published)
            && (f in Listing(cfg.stream, m.rows) && (eventTime in m.events || eventTime >= m.clock)
                && f.start < eventTime + cfg.postRoll && f.end > eventTime - cfg.preRoll
                ==> f.path in m.promoted || f.path in m.files)
  {
    RunIsSafe(cfg, clock, ticks, shortest);
    var m := Run(cfg, clock, ticks);
    assert Overlaps(f.Span(), EventWindow(cfg, eventTime)) <==>
           f.start < eventTime + cfg.postRoll && f.end > eventTime - cfg.preRoll;
    if eventTime in m.events && Overlaps(f.Span(), EventWindow(cfg, eventTime)) {
      OverlapReachesRequired(cfg, m.events, eventTime, f.Span());
    }
  }

  /** The promoted media in the order of promotion. */
  function PromotedSpans(m: Monitor): seq<Window>
    requires forall p :: p in m.published ==> p in m.promoted
  {
    seq(|m.published|, i requires 0 <= i < |m.published| => m.promoted[m.published[i]].Span())
  }

  /** End to end: one pass after the fragments of a linked recording are listed, every event whose
      window that recording spans is reported covered. */
  lemma {:induction false} SpannedEventIsCovered(
    cfg: Config, clock: real, ticks: seq<Tick>, tick: Tick, shortest: real, eventTime: real,
    recording: seq<Fragment>, chain: seq<Window>, tolerance: real)
    requires Suffices(cfg, shortest) && cfg.preRoll + cfg.postRoll > tolerance
    requires ValidRun(cfg, clock, ticks + [tick], shortest)
    requires Run(cfg, clock, ticks + [tick]).failure.None?
    requires eventTime in Run(cfg, clock, ticks).events + tick.eventTimes
    requires Spans(chain, Window(eventTime - cfg.preRoll, eventTime + cfg.postRoll), tolerance)
             && |chain| == |recording|
    requires forall i :: 0 <= i < |chain| ==> chain[i] == recording[i].Span()
    requires var listed := Listing(cfg.stream, Run(cfg, clock, ticks).rows + tick.hooksBefore);
             forall f :: f in recording ==> f in listed
    ensures var m := Run(cfg, clock, ticks + [tick]);
            (forall p :: p in m.published ==> p in m.promoted)
            && CoverageOk(Window(eventTime - cfg.preRoll, eventTime + cfg.postRoll), PromotedSpans(m), tolerance)
  {
    assert (ticks + [tick])[..|ticks|] == ticks;
    var m0, m := Run(cfg, clock, ticks), Run(cfg, clock, ticks + [tick]);
    RunIsSafe(cfg, clock, ticks, shortest);
    RunIsSafe(cfg, clock, ticks + [tick], shortest);
    assert RowsFit(cfg, tick.hooksBefore) && RowsFit(cfg, tick.hooksBetween);
    forall w | w in chain && Overlaps(w, EventWindow(cfg, eventTime)) ensures w in PromotedSpans(m) {
      var i :| 0 <= i < |chain| && chain[i] == w;
      assert recording[i] in recording;
      OverlapReachesRequired(cfg, m0.events + tick.eventTimes, eventTime, w);
      PassPromotes(cfg, m0, tick, recording[i]);
      var k :| 0 <= k < |m.published| && m.published[k] == recording[i].path;
      assert PromotedSpans(m)[k] == w;
    }
    CoverageIsComplete(EventWindow(cfg, eventTime), chain, PromotedSpans(m), tolerance);
  }

  // ----- what a run leaves behind -----

  /** The copy a failure leaves unfinished. */
  function LeftBy(failure: Option<Failure>): set<string> {
    match failure
    case Some(CopyRaised(path, true)) => {path}
    case Some(ProbeRaised(path)) => {path}
    case Some(PublishRaised(path)) => {path}
    case _ => {}
  }

  lemma {:induction false} AnnounceAllFacts(cfg: Config, m: Monitor, rows: seq<HookRow>)
    ensures var after := AnnounceAll(cfg, m, rows);
            after.rows == m.rows + rows && after == m.(rows := after.rows, files := after.files)
  {
    if rows != [] {
      AnnounceAllFacts(cfg, m, rows[..|rows| - 1]);
    }
  }

  lemma {:induction false} BeforePromotionFacts(cfg: Config, m: Monitor, tick: Tick)
    ensures var before := BeforePromotion(cfg, m, tick);
            && before.rows == m.rows + tick.hooksBefore
            && before == m.(rows := before.rows, files := before.files, events := before.events, clock := before.clock)
  {
    TriggerAllFacts(m.(clock := tick.now), tick.eventTimes);
    AnnounceAllFacts(cfg, TriggerAll(m.(clock := tick.now), tick.eventTimes), tick.hooksBefore);
  }

  lemma {:induction false} PromoteAllLeaves(cfg: Config, m: Monitor, fragments: seq<Fragment>, windows: seq<Window>)
    requires m.partials == LeftBy(m.failure)
    ensures var after := PromoteAll(cfg, m, fragments, windows); after.partials == LeftBy(after.failure)
  {
    if fragments != [] {
      PromoteAllLeaves(cfg, m, fragments[..|fragments| - 1], windows);
    }
  }

  lemma {:induction false} PromoteAllFacts(cfg: Config, m: Monitor, fragments: seq<Fragment>, windows: seq<Window>)
    ensures var after := PromoteAll(cfg, m, fragments, windows);
            after == m.(promoted := after.promoted, published := after.published, partials := after.partials,
                        failure := after.failure)
  {
    if fragments != [] {
      PromoteAllFacts(cfg, m, fragments[..|fragments| - 1], windows);
    }
  }

  lemma {:induction false} CollectAllFacts(m: Monitor, fragments: seq<Fragment>, windows: seq<Window>, cutoff: real)
    ensures var after := CollectAll(m, fragments, windows, cutoff);
            after == m.(files := after.files, gcRemoved := after.gcRemoved) && after.files <= m.files
  {
    if fragments != [] {
      CollectAllFacts(m, fragments[..|fragments| - 1], windows, cutoff);
    }
  }

  lemma {:induction false} IterateLeaves(cfg: Config, m: Monitor, tick: Tick)
    requires m.partials == LeftBy(m.failure)
    ensures var after := Iterate(cfg, m, tick); after.partials == LeftBy(after.failure)
  {
    if m.failure.None? {
      BeforePromotionFacts(cfg, m, tick);
      var before := BeforePromotion(cfg, m, tick);
      var windows := Required(cfg, before.events);
      PromoteAllLeaves(cfg, before, Listing(cfg.stream, before.rows), windows);
      var after := AfterPromotion(cfg, before, windows);
      AnnounceAllFacts(cfg, after, tick.hooksBetween);
      var listed := AnnounceAll(cfg, after, tick.hooksBetween);
      CollectAllFacts(listed, Listing(cfg.stream, listed.rows), windows, tick.now - cfg.buffer);
    }
  }

  /** Over every run: an unfinished copy lies beside its final name exactly when the run ended in an exception
      of the copying, the inspection or the publication, and then it is the one of that file. */
  lemma {:induction false} InterruptedCopyIsLeft(cfg: Config, clock: real, ticks: seq<Tick>)
    ensures var m := Run(cfg, clock, ticks); m.partials == LeftBy(m.failure)
  {
    if ticks != [] {
      InterruptedCopyIsLeft(cfg, clock, ticks[..|ticks| - 1]);
      IterateLeaves(cfg, Run(cfg, clock, ticks[..|ticks| - 1]), ticks[|ticks| - 1]);
    }
  }

  // ----- the buffer is trimmed -----

  lemma {:induction false} ListingGrows(stream: string, rows: seq<HookRow>, more: seq<HookRow>, f: Fragment)
    requires f in Listing(stream, rows)
    ensures f in Listing(stream, rows + more)
  {
    if more == [] {
      assert rows + more == rows;
    } else {
      ListingGrows(stream, rows, more[..|more| - 1], f);
      assert (rows + more)[..|rows + more| - 1] == rows + more[..|more| - 1];
    }
  }

  lemma {:induction false} PromoteAllPromotes(cfg: Config, m: Monitor, fragments: seq<Fragment>, windows: seq<Window>,
      f: Fragment)
    requires PromoteAll(cfg, m, fragments, windows).failure.None?
    requires f in fragments && OverlapsAny(f.Span(), windows)
    ensures f.path in PromoteAll(cfg, m, fragments, windows).promoted
  {
    var n := |fragments| - 1;
    if f != fragments[n] {
      assert fragments == fragments[..n] + [fragments[n]];
      PromoteAllPromotes(cfg, m, fragments[..n], windows, f);
    }
  }

  lemma {:induction false} CollectAllTrims(m: Monitor, fragments: seq<Fragment>, windows: seq<Window>, cutoff: real,
      f: Fragment)
    requires f in fragments && f.end < cutoff && (OverlapsAny(f.Span(), windows) ==> f.path in m.promoted)
    ensures f.path !in CollectAll(m, fragments, windows, cutoff).files
  {
    var n := |fragments| - 1;
    CollectAllFacts(m, fragments[..n], windows, cutoff);
    if f != fragments[n] {
      assert fragments == fragments[..n] + [fragments[n]];
      CollectAllTrims(m, fragments[..n], windows, cutoff, f);
    }
  }

  lemma {:induction false} FinishPassTrims(cfg: Config, m: Monitor, tick: Tick, windows: seq<Window>, f: Fragment)
    requires FinishPass(cfg, m, tick, windows).failure.None?
    requires f in Listing(cfg.stream, m.rows) && f.end < tick.now - cfg.buffer
    ensures f.path !in FinishPass(cfg, m, tick, windows).files
  {
    var after := AfterPromotion(cfg, m, windows);
    AnnounceAllFacts(cfg, after, tick.hooksBetween);
    var listed := AnnounceAll(cfg, after, tick.hooksBetween);
    PromoteAllFacts(cfg, m, Listing(cfg.stream, m.rows), windows);
    ListingGrows(cfg.stream, m.rows, tick.hooksBetween, f);
    if OverlapsAny(f.Span(), windows) {
      PromoteAllPromotes(cfg, m, Listing(cfg.stream, m.rows), windows, f);
    }
    CollectAllTrims(listed, Listing(cfg.stream, listed.rows), windows, tick.now - cfg.buffer, f);
  }

  /** The buffer rolls, under any settings: after a pass that does not fail every file that was listed when
      it promoted, and is still in the buffer, ends no earlier than the buffer's length before it began. */
  lemma {:induction false} BufferIsTrimmed(cfg: Config, clock: real, ticks: seq<Tick>, tick: Tick, f: Fragment)
    requires Run(cfg, clock, ticks + [tick]).failure.None?
    requires f in Listing(cfg.stream, Run(cfg, clock, ticks).rows + tick.hooksBefore)
    requires f.path in Run(cfg, clock, ticks + [tick]).files
    ensures f.end >= tick.now - cfg.buffer
  {
    assert (ticks + [tick])[..|ticks|] == ticks;
    var m := Run(cfg, clock, ticks);
    BeforePromotionFacts(cfg, m, tick);
    var before := BeforePromotion(cfg, m, tick);
    if f.end < tick.now - cfg.buffer {
      FinishPassTrims(cfg, before, tick, Required(cfg, before.events), f);
    }
  }
}
