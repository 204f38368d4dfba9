/** The EVENT_ONLY rolling prebuffer on values: hook rows arrive, events open windows, overlapping
    fragments are promoted, and old fragments are collected. One `Tick` is one pass of the main loop
    with everything the environment does around it. */
module Preroll {
  import opened Wrappers
  import opened Windows

  const PREBUFFER := "/prebuffer/"

  /** How copying a file goes: it raises before or after it has made the partial copy, or it ends without
      or with the file's size. */
  datatype Copying = Unopened | Interrupted | Short | Whole

  /** For each file how its copying goes, the inspected duration of the copy (None when the inspection
      raises), and whether the copy can be flushed and renamed. */
  datatype Config = Config(
    stream: string, preRoll: real, postRoll: real, buffer: real,
    copied: string -> Copying, probe: string -> Option<real>, renamed: string -> bool)

  datatype HookRow = HookRow(stream: string, path: string, start: real, duration: real, dropped: bool)

  datatype Fragment = Fragment(path: string, start: real, end: real) {
    function Span(): Window { Window(start, end) }
  }

  datatype Failure =
    | Disappeared(path: string)
    | CopyRaised(path: string, begun: bool)
    | SizeMismatch(path: string)
    | ProbeRaised(path: string)
    | InvalidMedia(path: string)
    | PublishRaised(path: string)

  /** `files` are the finalized files in the prebuffer; `published` logs every promotion in order;
      `partials` are the files whose copy lies unfinished beside its final name; `clock` is the latest time
      read so far. */
  datatype Monitor = Monitor(
    rows: seq<HookRow>, files: set<string>, events: seq<real>, promoted: map<string, Fragment>,
    published: seq<string>, partials: set<string>, gcRemoved: seq<string>, clock: real, failure: Option<Failure>)

  /** One pass: `now` is read first, then one clock value per event that fires; hook rows are stored
      before the promotion pass lists them and between that listing and the collector's own. */
  datatype Tick = Tick(now: real, eventTimes: seq<real>, hooksBefore: seq<HookRow>, hooksBetween: seq<HookRow>)

  // ----- the fragment listing -----

  function Paths(fragments: seq<Fragment>): set<string> {
    set f | f in fragments :: f.path
  }

  predicate Eligible(stream: string, row: HookRow) {
    !row.dropped && row.stream == stream && PREBUFFER <= row.path
  }

  function FragmentOf(row: HookRow): Fragment {
    Fragment(row.path, row.start, row.start + row.duration)
  }

  /** The first stored row of each eligible path, in order. */
  function Listing(stream: string, rows: seq<HookRow>): seq<Fragment> {
    if rows == [] then []
    else
      var earlier, row := Listing(stream, rows[..|rows| - 1]), rows[|rows| - 1];
      if Eligible(stream, row) && row.path !in Paths(earlier) then earlier + [FragmentOf(row)] else earlier
  }

  predicate SamePathBefore(stream: string, rows: seq<HookRow>, n: nat, path: string)
    requires n <= |rows|
  {
    exists j :: 0 <= j < n && !rows[j].dropped && rows[j].stream == stream && rows[j].path == path
  }

  lemma {:induction false} PathsAreListed(stream: string, rows: seq<HookRow>, path: string)
    requires "/prebuffer/" <= path
    ensures path in Paths(Listing(stream, rows)) <==> SamePathBefore(stream, rows, |rows|, path)
  {
    if rows != [] {
      var n := |rows| - 1;
      PathsAreListed(stream, rows[..n], path);
      assert SamePathBefore(stream, rows, n, path) <==> SamePathBefore(stream, rows[..n], n, path);
      assert SamePathBefore(stream, rows, n + 1, path) <==>
             SamePathBefore(stream, rows, n, path)
             || (!rows[n].dropped && rows[n].stream == stream && rows[n].path == path);
    }
  }

  /** The listed fragments are those of the stored rows of the stream that were not dropped and lie in the
      prebuffer, the first one of each path, from their start to their start plus their duration. */
  lemma {:induction false} ListingIsExact(stream: string, rows: seq<HookRow>, f: Fragment)
    ensures f in Listing(stream, rows) <==>
            exists i :: 0 <= i < |rows| && !rows[i].dropped && rows[i].stream == stream
                        && "/prebuffer/" <= rows[i].path && f.path == rows[i].path && f.start == rows[i].start
                        && f.end == rows[i].start + rows[i].duration && !SamePathBefore(stream, rows, i, f.path)
  {
    if rows != [] {
      var n := |rows| - 1;
      ListingIsExact(stream, rows[..n], f);
      if "/prebuffer/" <= rows[n].path {
        PathsAreListed(stream, rows[..n], rows[n].path);
      }
      forall i | 0 <= i <= n ensures SamePathBefore(stream, rows[..n], i, f.path)
                                     <==> SamePathBefore(stream, rows, i, f.path) {
      }
      if f in Listing(stream, rows) && f !in Listing(stream, rows[..n]) {
        assert f == FragmentOf(rows[n]) && !SamePathBefore(stream, rows, n, f.path);
      }
    }
  }

  // ----- the steps -----

  /** The hook service stores a row; a path announced for the first time is a finalized file. */
  function Announce(cfg: Config, m: Monitor, row: HookRow): Monitor {
    m.(rows := m.rows + [row],
       files := if row.path in Paths(Listing(cfg.stream, m.rows)) then m.files else m.files + {row.path})
  }

  function AnnounceAll(cfg: Config, m: Monitor, rows: seq<HookRow>): Monitor {
    if rows == [] then m
    else Announce(cfg, AnnounceAll(cfg, m, rows[..|rows| - 1]), rows[|rows| - 1])
  }

  function Trigger(m: Monitor, eventTime: real): Monitor {
    m.(events := m.events + [eventTime], clock := eventTime)
  }

  function TriggerAll(m: Monitor, times: seq<real>): Monitor {
    if times == [] then m else Trigger(TriggerAll(m, times[..|times| - 1]), times[|times| - 1])
  }

  function EventWindow(cfg: Config, eventTime: real): Window {
    Window(eventTime - cfg.preRoll, eventTime + cfg.postRoll)
  }

  function EventWindows(cfg: Config, events: seq<real>): seq<Window> {
    seq(|events|, i requires 0 <= i < |events| => EventWindow(cfg, events[i]))
  }

  function Required(cfg: Config, events: seq<real>): seq<Window> {
    Merged(EventWindows(cfg, events), 0.0)
  }

  /** What promoting an existing file raises, if anything. */
  function Raised(cfg: Config, path: string): Option<Failure> {
    match cfg.copied(path)
    case Unopened => Some(CopyRaised(path, false))
    case Interrupted => Some(CopyRaised(path, true))
    case Short => Some(SizeMismatch(path))
    case Whole =>
      match cfg.probe(path)
      case None => Some(ProbeRaised(path))
      case Some(duration) =>
        if duration <= 0.0 then Some(InvalidMedia(path))
        else if !cfg.renamed(path) then Some(PublishRaised(path)) else None
  }

  /** The copies that are cleaned up are those found too short and those without media. */
  predicate LeavesPartial(failure: Failure) {
    (failure.CopyRaised? && failure.begun) || failure.ProbeRaised? || failure.PublishRaised?
  }

  function Promote(cfg: Config, m: Monitor, f: Fragment): Monitor {
    if f.path !in m.files then m.(failure := Some(Disappeared(f.path)))
    else
      match Raised(cfg, f.path)
      case None =>
        m.(promoted := m.promoted[f.path := f], published := m.published + [f.path], partials := m.partials - {f.path})
      case Some(failure) =>
        m.(failure := Some(failure),
           partials := if LeavesPartial(failure) then m.partials + {f.path}
                       else if failure.CopyRaised? then m.partials else m.partials - {f.path})
  }

  function PromoteAll(cfg: Config, m: Monitor, fragments: seq<Fragment>, windows: seq<Window>): Monitor {
    if fragments == [] then m
    else
      var before, f := PromoteAll(cfg, m, fragments[..|fragments| - 1], windows), fragments[|fragments| - 1];
      if before.failure.None? && f.path !in before.promoted && OverlapsAny(f.Span(), windows)
      then Promote(cfg, before, f) else before
  }

  function Collect(m: Monitor, f: Fragment, windows: seq<Window>, cutoff: real): Monitor {
    if f.end >= cutoff then m
    else if OverlapsAny(f.Span(), windows) && f.path !in m.promoted then m
    else if f.path in m.files then m.(files := m.files - {f.path}, gcRemoved := m.gcRemoved + [f.path])
    else m
  }

  function CollectAll(m: Monitor, fragments: seq<Fragment>, windows: seq<Window>, cutoff: real): Monitor {
    if fragments == [] then m
    else
      var n := |fragments| - 1;
      Collect(CollectAll(m, fragments[..n], windows, cutoff), fragments[n], windows, cutoff)
  }

  /** State when the promotion pass of a tick lists the fragments. */
  function BeforePromotion(cfg: Config, m: Monitor, tick: Tick): Monitor {
    AnnounceAll(cfg, TriggerAll(m.(clock := tick.now), tick.eventTimes), tick.hooksBefore)
  }

  /** The promotion pass for the windows of the events so far. */
  function AfterPromotion(cfg: Config, m: Monitor, windows: seq<Window>): Monitor {
    PromoteAll(cfg, m, Listing(cfg.stream, m.rows), windows)
  }

  /** The collector lists the fragments again; it uses the windows and the time of its pass. */
  function AfterCollection(cfg: Config, m: Monitor, tick: Tick, windows: seq<Window>): Monitor {
    var listed := AnnounceAll(cfg, m, tick.hooksBetween);
    CollectAll(listed, Listing(cfg.stream, listed.rows), windows, tick.now - cfg.buffer)
  }

  function FinishPass(cfg: Config, m: Monitor, tick: Tick, windows: seq<Window>): Monitor {
    var after := AfterPromotion(cfg, m, windows);
    if after.failure.Some? then after else AfterCollection(cfg, after, tick, windows)
  }

  /** A raised failure ends the run. */
  function Iterate(cfg: Config, m: Monitor, tick: Tick): Monitor {
    if m.failure.Some? then m
    else
      var before := BeforePromotion(cfg, m, tick);
      FinishPass(cfg, before, tick, Required(cfg, before.events))
  }

  function Start(clock: real): Monitor {
    Monitor([], {}, [], map[], [], {}, [], clock, None)
  }

  function Run(cfg: Config, clock: real, ticks: seq<Tick>): Monitor {
    if ticks == [] then Start(clock)
    else Iterate(cfg, Run(cfg, clock, ticks[..|ticks| - 1]), ticks[|ticks| - 1])
  }

  lemma {:induction false} TriggerAllFacts(m: Monitor, times: seq<real>)
    ensures TriggerAll(m, times)
         == m.(events := m.events + times, clock := if times == [] then m.clock else times[|times| - 1])
  {
    if times != [] {
      var init := times[..|times| - 1];
      TriggerAllFacts(m, init);
      assert m.events + init + [times[|times| - 1]] == m.events + times;
    } else {
      assert m.events + times == m.events;
    }
  }

  // ----- what the environment is assumed to do -----

  predicate TimesFrom(low: real, times: seq<real>) {
    && (forall i :: 0 <= i < |times| ==> low <= times[i])
    && (forall i, j :: 0 <= i < j < |times| ==> times[i] <= times[j])
  }

  predicate AtLeast(rows: seq<HookRow>, shortest: real) {
    forall row :: row in rows ==> row.duration >= shortest
  }

  predicate ClockAdvances(low: real, tick: Tick) {
    low <= tick.now && TimesFrom(tick.now, tick.eventTimes)
  }

  /** The clock never goes back, and no recorded duration is below `shortest`, which may be negative. */
  predicate ValidRun(cfg: Config, clock: real, ticks: seq<Tick>, shortest: real) {
    ticks != [] ==>
      var earlier, tick := ticks[..|ticks| - 1], ticks[|ticks| - 1];
      && ValidRun(cfg, clock, earlier, shortest)
      && ClockAdvances(Run(cfg, clock, earlier).clock, tick)
      && AtLeast(tick.hooksBefore, shortest) && AtLeast(tick.hooksBetween, shortest)
  }

  /** The settings that keep every needed fragment: a buffer as long as the pre-roll, and no recorded
      duration further below zero than the buffer has to spare; with event windows of no length any
      duration will do. */
  predicate Suffices(cfg: Config, shortest: real) {
    cfg.buffer >= cfg.preRoll && (cfg.preRoll + cfg.postRoll <= 0.0 || shortest >= cfg.preRoll - cfg.buffer)
  }

  predicate RowFits(cfg: Config, row: HookRow) {
    cfg.preRoll + cfg.postRoll <= 0.0 || row.duration >= cfg.preRoll - cfg.buffer
  }

  predicate RowsFit(cfg: Config, rows: seq<HookRow>) {
    forall row :: row in rows ==> RowFits(cfg, row)
  }

  predicate FragmentFits(cfg: Config, f: Fragment) {
    cfg.preRoll + cfg.postRoll <= 0.0 || f.end - f.start >= cfg.preRoll - cfg.buffer
  }

  // ----- the invariant -----

  /** Gone for good: too old for any window still to come, and touched by none so far. */
  predicate Harmless(cfg: Config, m: Monitor, f: Fragment) {
    f.end < m.clock - cfg.buffer && !OverlapsAny(f.Span(), Required(cfg, m.events))
  }

  ghost predicate NoneLost(cfg: Config, m: Monitor) {
    forall f :: f in Listing(cfg.stream, m.rows) ==>
      f.path in m.files || f.path in m.promoted || Harmless(cfg, m, f)
  }

  ghost predicate PublishedOnce(m: Monitor) {
    NoRepeats(m.published) && forall p :: p in m.published <==> p in m.promoted
  }

  /** A promoted path is mapped to its own listed fragment. */
  predicate PromotedAreListed(cfg: Config, m: Monitor) {
    forall p :: p in m.promoted ==> m.promoted[p].path == p && m.promoted[p] in Listing(cfg.stream, m.rows)
  }

  ghost predicate Safe(cfg: Config, m: Monitor) {
    && NoneLost(cfg, m) && PublishedOnce(m) && PromotedAreListed(cfg, m) && RowsFit(cfg, m.rows)
    && !(m.failure.Some? && m.failure.value.Disappeared?)
  }

  predicate PathsDiffer(fs: seq<Fragment>) {
    forall i, j :: 0 <= i < j < |fs| ==> fs[i].path != fs[j].path
  }

  lemma {:induction false} ListingPathsDiffer(stream: string, rows: seq<HookRow>)
    ensures PathsDiffer(Listing(stream, rows))
  {
    if rows != [] {
      ListingPathsDiffer(stream, rows[..|rows| - 1]);
      var earlier, fs := Listing(stream, rows[..|rows| - 1]), Listing(stream, rows);
      forall i, j | 0 <= i < j < |fs| ensures fs[i].path != fs[j].path {
        assert fs[i] == earlier[i] && earlier[i].path in Paths(earlier);
      }
    }
  }

  lemma {:induction false} ListingFits(cfg: Config, rows: seq<HookRow>)
    requires RowsFit(cfg, rows)
    ensures forall f :: f in Listing(cfg.stream, rows) ==> FragmentFits(cfg, f)
  {
    if rows != [] {
      assert rows[|rows| - 1] in rows && forall row :: row in rows[..|rows| - 1] ==> row in rows;
      ListingFits(cfg, rows[..|rows| - 1]);
    }
  }

  lemma {:induction false} SamePathSameFragment(stream: string, rows: seq<HookRow>, f: Fragment, g: Fragment)
    requires f in Listing(stream, rows) && g in Listing(stream, rows) && f.path == g.path
    ensures f == g
  {
    ListingPathsDiffer(stream, rows);
  }

  lemma {:induction false} AnnounceIsSafe(cfg: Config, m: Monitor, row: HookRow)
    requires Safe(cfg, m) && RowFits(cfg, row)
    ensures Safe(cfg, Announce(cfg, m, row))
  {
    var after := Announce(cfg, m, row);
    assert after.rows[..|m.rows|] == m.rows;
    forall f | f in Listing(cfg.stream, after.rows)
      ensures f.path in after.files || f.path in after.promoted || Harmless(cfg, after, f)
    {
      if f in Listing(cfg.stream, m.rows) {
        assert f.path in m.files || f.path in m.promoted || Harmless(cfg, m, f);
      }
    }
  }

  lemma {:induction false} AnnounceAllIsSafe(cfg: Config, m: Monitor, rows: seq<HookRow>)
    requires Safe(cfg, m) && RowsFit(cfg, rows)
    ensures var after := AnnounceAll(cfg, m, rows);
            && Safe(cfg, after) && after.rows == m.rows + rows
            && after == m.(rows := after.rows, files := after.files)
  {
    if rows != [] {
      var init := rows[..|rows| - 1];
      assert rows[|rows| - 1] in rows && forall row :: row in init ==> row in rows;
      AnnounceAllIsSafe(cfg, m, init);
      AnnounceIsSafe(cfg, AnnounceAll(cfg, m, init), rows[|rows| - 1]);
    }
  }

  /** A fragment that is gone for good does not overlap the merged windows when one more event fires. */
  lemma {:induction false} HarmlessStays(cfg: Config, m: Monitor, f: Fragment, eventTime: real)
    requires cfg.buffer >= cfg.preRoll && m.clock <= eventTime && FragmentFits(cfg, f) && Harmless(cfg, m, f)
    ensures Harmless(cfg, Trigger(m, eventTime), f)
  {
    var w, windows := EventWindow(cfg, eventTime), EventWindows(cfg, m.events);
    assert EventWindows(cfg, m.events + [eventTime]) == windows + [w];
    if f.start < w.start {
      LaterWindowIsHarmless(f.Span(), windows, w);
    } else {
      NoLengthNoOverlap(f.Span(), windows + [w]);
    }
  }

  lemma {:induction false} TriggerIsSafe(cfg: Config, m: Monitor, eventTime: real)
    requires cfg.buffer >= cfg.preRoll && Safe(cfg, m) && m.clock <= eventTime
    ensures Safe(cfg, Trigger(m, eventTime))
  {
    var after := Trigger(m, eventTime);
    ListingFits(cfg, m.rows);
    forall f | f in Listing(cfg.stream, m.rows)
      ensures f.path in after.files || f.path in after.promoted || Harmless(cfg, after, f)
    {
      if Harmless(cfg, m, f) {
        HarmlessStays(cfg, m, f, eventTime);
      }
    }
  }

  lemma {:induction false} TriggerAllIsSafe(cfg: Config, m: Monitor, low: real, times: seq<real>)
    requires cfg.buffer >= cfg.preRoll && Safe(cfg, m) && m.clock == low && TimesFrom(low, times)
    ensures var after := TriggerAll(m, times);
            && Safe(cfg, after)
            && after.clock == (if times == [] then low else times[|times| - 1])
            && after == m.(events := m.events + times, clock := after.clock)
  {
    if times != [] {
      var init := times[..|times| - 1];
      TriggerAllIsSafe(cfg, m, low, init);
      TriggerIsSafe(cfg, TriggerAll(m, init), times[|times| - 1]);
      assert m.events + init + [times[|times| - 1]] == m.events + times;
    }
  }

  lemma {:induction false} PromoteIsSafe(cfg: Config, m: Monitor, f: Fragment, windows: seq<Window>)
    requires Safe(cfg, m) && f in Listing(cfg.stream, m.rows) && windows == Required(cfg, m.events)
    requires f.path !in m.promoted && OverlapsAny(f.Span(), windows)
    ensures Safe(cfg, Promote(cfg, m, f))
  {
    assert !Harmless(cfg, m, f);
    var after := Promote(cfg, m, f);
    assert forall g :: g in Listing(cfg.stream, m.rows) ==> (Harmless(cfg, m, g) <==> Harmless(cfg, after, g));
  }

  /** What a promotion pass makes of `m` once it has gone through `fragments`. */
  ghost predicate PassedOver(cfg: Config, m: Monitor, after: Monitor, fragments: seq<Fragment>, windows: seq<Window>) {
    && Safe(cfg, after)
    && after == m.(promoted := after.promoted, published := after.published, partials := after.partials,
                   failure := after.failure)
    && m.promoted.Keys <= after.promoted.Keys
    && (after.failure.None? ==>
          forall f :: f in fragments && OverlapsAny(f.Span(), windows) ==> f.path in after.promoted)
  }

  lemma {:induction false} PassedOverOneMore(cfg: Config, m: Monitor, before: Monitor, after: Monitor,
      init: seq<Fragment>, f: Fragment, windows: seq<Window>)
    requires PassedOver(cfg, m, before, init, windows) && Safe(cfg, after)
    requires after == before || (before.failure.None? && after == Promote(cfg, before, f))
    requires before.failure.None? && after == before ==> f.path in before.promoted || !OverlapsAny(f.Span(), windows)
    ensures PassedOver(cfg, m, after, init + [f], windows)
  {
    assert forall g :: g in init + [f] ==> g in init || g == f;
  }

  /** The promotion pass: nothing it needs has disappeared, and without a failure every listed fragment
      that overlaps a required window ends up promoted. */
  lemma {:induction false} PromoteAllIsSafe(cfg: Config, m: Monitor, fragments: seq<Fragment>, windows: seq<Window>)
    requires Safe(cfg, m) && m.failure.None? && windows == Required(cfg, m.events)
    requires forall f :: f in fragments ==> f in Listing(cfg.stream, m.rows)
    ensures PassedOver(cfg, m, PromoteAll(cfg, m, fragments, windows), fragments, windows)
  {
    if fragments != [] {
      var init, f := fragments[..|fragments| - 1], fragments[|fragments| - 1];
      assert f in fragments && forall g :: g in init ==> g in fragments;
      PromoteAllIsSafe(cfg, m, init, windows);
      var before := PromoteAll(cfg, m, init, windows);
      if before.failure.None? && f.path !in before.promoted && OverlapsAny(f.Span(), windows) {
        PromoteIsSafe(cfg, before, f, windows);
      }
      PassedOverOneMore(cfg, m, before, PromoteAll(cfg, m, fragments, windows), init, f, windows);
      assert fragments == init + [f];
    }
  }

  lemma {:induction false} CollectIsSafe(cfg: Config, m: Monitor, f: Fragment, cutoff: real)
    requires Safe(cfg, m) && f in Listing(cfg.stream, m.rows) && cutoff <= m.clock - cfg.buffer
    ensures Safe(cfg, Collect(m, f, Required(cfg, m.events), cutoff))
  {
    var after := Collect(m, f, Required(cfg, m.events), cutoff);
    forall g | g in Listing(cfg.stream, after.rows)
      ensures g.path in after.files || g.path in after.promoted || Harmless(cfg, after, g)
    {
      assert g.path in m.files || g.path in m.promoted || Harmless(cfg, m, g);
      if g.path == f.path {
        SamePathSameFragment(cfg.stream, m.rows, f, g);
      }
    }
  }

  lemma {:induction false} CollectAllIsSafe(cfg: Config, m: Monitor, fragments: seq<Fragment>, cutoff: real)
    requires Safe(cfg, m) && cutoff <= m.clock - cfg.buffer
    requires forall f :: f in fragments ==> f in Listing(cfg.stream, m.rows)
    ensures var after := CollectAll(m, fragments, Required(cfg, m.events), cutoff);
            Safe(cfg, after) && after == m.(files := after.files, gcRemoved := after.gcRemoved)
  {
    if fragments != [] {
      var init := fragments[..|fragments| - 1];
      assert fragments[|fragments| - 1] in fragments && forall g :: g in init ==> g in fragments;
      CollectAllIsSafe(cfg, m, init, cutoff);
      CollectIsSafe(cfg, CollectAll(m, init, Required(cfg, m.events), cutoff), fragments[|fragments| - 1], cutoff);
    }
  }

  lemma {:induction false} ClockStepIsSafe(cfg: Config, m: Monitor, now: real)
    requires Safe(cfg, m) && m.clock <= now
    ensures Safe(cfg, m.(clock := now))
  {
    var after := m.(clock := now);
    assert forall f :: f in Listing(cfg.stream, m.rows) && Harmless(cfg, m, f) ==> Harmless(cfg, after, f);
  }

  lemma {:induction false} BeforePromotionIsSafe(cfg: Config, m: Monitor, tick: Tick)
    requires cfg.buffer >= cfg.preRoll && Safe(cfg, m)
    requires ClockAdvances(m.clock, tick) && RowsFit(cfg, tick.hooksBefore)
    ensures var before := BeforePromotion(cfg, m, tick);
            && Safe(cfg, before) && before.clock >= tick.now
            && before == m.(rows := m.rows + tick.hooksBefore, events := m.events + tick.eventTimes,
                            clock := before.clock, files := before.files)
  {
    ClockStepIsSafe(cfg, m, tick.now);
    TriggerAllIsSafe(cfg, m.(clock := tick.now), tick.now, tick.eventTimes);
    AnnounceAllIsSafe(cfg, TriggerAll(m.(clock := tick.now), tick.eventTimes), tick.hooksBefore);
  }

  lemma {:induction false} AfterPromotionIsSafe(cfg: Config, m: Monitor)
    requires Safe(cfg, m) && m.failure.None?
    ensures var after := AfterPromotion(cfg, m, Required(cfg, m.events));
            && Safe(cfg, after) && after.clock == m.clock && after.rows == m.rows && after.events == m.events
            && (after.failure.None? ==>
                  forall f :: f in Listing(cfg.stream, m.rows) && OverlapsAny(f.Span(), Required(cfg, m.events))
                              ==> f.path in after.promoted)
  {
    PromoteAllIsSafe(cfg, m, Listing(cfg.stream, m.rows), Required(cfg, m.events));
  }

  lemma {:induction false} AfterCollectionIsSafe(cfg: Config, m: Monitor, tick: Tick)
    requires Safe(cfg, m) && m.clock >= tick.now && RowsFit(cfg, tick.hooksBetween)
    ensures var after := AfterCollection(cfg, m, tick, Required(cfg, m.events));
            && Safe(cfg, after)
            && after.events == m.events && after.promoted == m.promoted && after.failure == m.failure
  {
    AnnounceAllIsSafe(cfg, m, tick.hooksBetween);
    var listed := AnnounceAll(cfg, m, tick.hooksBetween);
    CollectAllIsSafe(cfg, listed, Listing(cfg.stream, listed.rows), tick.now - cfg.buffer);
  }

  /** A pass that does not fail promotes every fragment it lists that overlaps the window of an event
      fired by then, and keeps it promoted. */
  lemma {:induction false} PassPromotes(cfg: Config, m: Monitor, tick: Tick, f: Fragment)
    requires cfg.buffer >= cfg.preRoll && Safe(cfg, m) && m.failure.None?
    requires ClockAdvances(m.clock, tick) && RowsFit(cfg, tick.hooksBefore) && RowsFit(cfg, tick.hooksBetween)
    requires Iterate(cfg, m, tick).failure.None?
    requires f in Listing(cfg.stream, m.rows + tick.hooksBefore)
    requires OverlapsAny(f.Span(), Required(cfg, m.events + tick.eventTimes))
    ensures var after := Iterate(cfg, m, tick); f.path in after.promoted && after.promoted[f.path] == f
  {
    BeforePromotionIsSafe(cfg, m, tick);
    var before := BeforePromotion(cfg, m, tick);
    AfterPromotionIsSafe(cfg, before);
    var after := AfterPromotion(cfg, before, Required(cfg, before.events));
    AfterCollectionIsSafe(cfg, after, tick);
    SamePathSameFragment(cfg.stream, after.rows, f, after.promoted[f.path]);
  }

  lemma {:induction false} IterateIsSafe(cfg: Config, m: Monitor, tick: Tick)
    requires cfg.buffer >= cfg.preRoll && Safe(cfg, m)
    requires ClockAdvances(m.clock, tick) && RowsFit(cfg, tick.hooksBefore) && RowsFit(cfg, tick.hooksBetween)
    ensures Safe(cfg, Iterate(cfg, m, tick))
  {
    if m.failure.None? {
      BeforePromotionIsSafe(cfg, m, tick);
      var before := BeforePromotion(cfg, m, tick);
      AfterPromotionIsSafe(cfg, before);
      AfterCollectionIsSafe(cfg, AfterPromotion(cfg, before, Required(cfg, before.events)), tick);
    }
  }

  lemma {:induction false} OverlapReachesRequired(cfg: Config, events: seq<real>, eventTime: real, f: Window)
    requires eventTime in events && Overlaps(f, EventWindow(cfg, eventTime))
    ensures OverlapsAny(f, Required(cfg, events))
  {
    var i :| 0 <= i < |events| && events[i] == eventTime;
    assert EventWindows(cfg, events)[i] == EventWindow(cfg, eventTime);
    var outer := MergedContains(EventWindow(cfg, eventTime), EventWindows(cfg, events), 0.0);
  }
}
