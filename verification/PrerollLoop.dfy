/** The main loop as a stateful program, refining the passes of `Preroll`. */
module PrerollLoop {
  import opened Wrappers
  import opened Windows
  import opened Preroll
  import opened PrerollNeeds
  import opened PrerollRuns

  lemma {:induction false} FailureSticks(cfg: Config, m: Monitor, fragments: seq<Fragment>, windows: seq<Window>,
      n: nat)
    requires n <= |fragments| && PromoteAll(cfg, m, fragments[..n], windows).failure.Some?
    ensures PromoteAll(cfg, m, fragments, windows) == PromoteAll(cfg, m, fragments[..n], windows)
    decreases |fragments| - n
  {
    if n < |fragments| {
      assert fragments[..n + 1][..n] == fragments[..n];
      FailureSticks(cfg, m, fragments, windows, n + 1);
    } else {
      assert fragments[..n] == fragments;
    }
  }

  lemma {:induction false} FailedRunStays(cfg: Config, start: real, ticks: seq<Tick>, n: nat)
    requires n <= |ticks| && Run(cfg, start, ticks[..n]).failure.Some?
    ensures Run(cfg, start, ticks) == Run(cfg, start, ticks[..n])
    decreases |ticks| - n
  {
    if n < |ticks| {
      assert ticks[..n + 1][..n] == ticks[..n];
      FailedRunStays(cfg, start, ticks, n + 1);
    } else {
      assert ticks[..n] == ticks;
    }
  }

  // ----- the program -----

  /** hook_fragments: the scan over the stored rows with a set of the paths already seen. */
  method HookFragments(stream: string, rows: seq<HookRow>) returns (listed: seq<Fragment>)
    ensures listed == Listing(stream, rows)
  {
    listed := [];
    var seen := {};
    for i := 0 to |rows|
      invariant listed == Listing(stream, rows[..i]) && seen == Paths(listed)
    {
      assert rows[..i + 1][..i] == rows[..i];
      var row := rows[i];
      if Eligible(stream, row) && row.path !in seen {
        seen := seen + {row.path};
        listed := listed + [FragmentOf(row)];
      }
    }
    assert rows[..|rows|] == rows;
  }

  class PrerollMonitor {
    const cfg: Config
    var rows: seq<HookRow>
    var files: set<string>
    var events: seq<real>
    var promoted: map<string, Fragment>
    var published: seq<string>
    var partials: set<string>
    var gcRemoved: seq<string>
    var clock: real
    var failure: Option<Failure>

    constructor (cfg: Config, clock: real)
      ensures this.cfg == cfg && State() == Start(clock)
    {
      this.cfg := cfg;
      this.clock := clock;
      rows, files, events, promoted, published, partials, gcRemoved, failure := [], {}, [], map[], [], {}, [], None;
    }

    function State(): Monitor
      reads this
    {
      Monitor(rows, files, events, promoted, published, partials, gcRemoved, clock, failure)
    }

    /** The environment: the hook service stores rows, the recorder finalizes files. */
    method StoreHooks(arrived: seq<HookRow>)
      modifies this`rows, this`files
      ensures State() == AnnounceAll(cfg, old(State()), arrived)
    {
      for i := 0 to |arrived|
        invariant State() == AnnounceAll(cfg, old(State()), arrived[..i])
      {
        assert arrived[..i + 1][..i] == arrived[..i];
        var known := HookFragments(cfg.stream, rows);
        if arrived[i].path !in Paths(known) {
          files := files + {arrived[i].path};
        }
        rows := rows + [arrived[i]];
      }
      assert arrived[..|arrived|] == arrived;
    }

    method FireEvents(times: seq<real>)
      modifies this`events, this`clock
      ensures State() == TriggerAll(old(State()), times)
    {
      for i := 0 to |times|
        invariant State() == TriggerAll(old(State()), times[..i])
      {
        assert times[..i + 1][..i] == times[..i];
        events := events + [times[i]];
        clock := times[i];
      }
      assert times[..|times|] == times;
    }

    /** Checks, copies, inspects, flushes and renames. A copy that is too short or has no media is removed
        again; an exception in between leaves it. */
    method PromoteFragment(f: Fragment)
      modifies this`promoted, this`published, this`partials, this`failure
      ensures State() == Promote(cfg, old(State()), f)
    {
      if f.path !in files {
        failure := Some(Disappeared(f.path));
        return;
      }
      var copying := cfg.copied(f.path);
      if copying == Unopened {
        failure := Some(CopyRaised(f.path, false));
        return;
      }
      partials := partials + {f.path};
      if copying == Interrupted {
        failure := Some(CopyRaised(f.path, true));
        return;
      }
      if copying == Short {
        partials := partials - {f.path};
        failure := Some(SizeMismatch(f.path));
        return;
      }
      var duration := cfg.probe(f.path);
      if duration == None {
        failure := Some(ProbeRaised(f.path));
        return;
      }
      if duration.value <= 0.0 {
        partials := partials - {f.path};
        failure := Some(InvalidMedia(f.path));
        return;
      }
      if !cfg.renamed(f.path) {
        failure := Some(PublishRaised(f.path));
        return;
      }
      partials := partials - {f.path};
      promoted := promoted[f.path := f];
      published := published + [f.path];
    }

    method PromotePass(windows: seq<Window>)
      requires failure.None?
      modifies this`promoted, this`published, this`partials, this`failure
      ensures State() == PromoteAll(cfg, old(State()), Listing(cfg.stream, rows), windows)
    {
      var fragments := HookFragments(cfg.stream, rows);
      for i := 0 to |fragments|
        invariant State() == PromoteAll(cfg, old(State()), fragments[..i], windows)
        invariant failure.None?
      {
        assert fragments[..i + 1][..i] == fragments[..i];
        var f := fragments[i];
        if f.path !in promoted && OverlapsAny(f.Span(), windows) {
          PromoteFragment(f);
          if failure.Some? {
            FailureSticks(cfg, old(State()), fragments, windows, i + 1);
            return;
          }
        }
      }
      assert fragments[..|fragments|] == fragments;
    }

    method GcEphemeral(now: real, windows: seq<Window>)
      modifies this`files, this`gcRemoved
      ensures State() == CollectAll(old(State()), Listing(cfg.stream, rows), windows, now - cfg.buffer)
    {
      var cutoff := now - cfg.buffer;
      var fragments := HookFragments(cfg.stream, rows);
      for i := 0 to |fragments|
        invariant State() == CollectAll(old(State()), fragments[..i], windows, cutoff)
      {
        assert fragments[..i + 1][..i] == fragments[..i];
        var f := fragments[i];
        if f.end >= cutoff {
          continue;
        }
        var needed := OverlapsAny(f.Span(), windows);
        if needed && f.path !in promoted {
          continue;
        }
        if f.path in files {
          files := files - {f.path};
          gcRemoved := gcRemoved + [f.path];
        }
      }
      assert fragments[..|fragments|] == fragments;
    }

    /** The beginning of a pass: the time is read, events fire, and meanwhile hooks arrive. */
    method BeginPass(tick: Tick)
      modifies this`clock, this`events, this`rows, this`files
      ensures State() == BeforePromotion(cfg, old(State()), tick)
    {
      clock := tick.now;
      FireEvents(tick.eventTimes);
      StoreHooks(tick.hooksBefore);
    }

    /** The collector also lists the hooks that arrive during the promotions. */
    method CollectPass(tick: Tick, windows: seq<Window>)
      modifies this`rows, this`files, this`gcRemoved
      ensures State() == AfterCollection(cfg, old(State()), tick, windows)
    {
      StoreHooks(tick.hooksBetween);
      GcEphemeral(tick.now, windows);
    }

    method EndPass(tick: Tick, windows: seq<Window>)
      requires failure.None?
      modifies this`promoted, this`published, this`partials, this`failure, this`rows, this`files, this`gcRemoved
      ensures State() == FinishPass(cfg, old(State()), tick, windows)
    {
      PromotePass(windows);
      if failure.None? {
        CollectPass(tick, windows);
      }
    }

    method RunPass(tick: Tick)
      requires failure.None?
      modifies this
      ensures State() == Iterate(cfg, old(State()), tick)
    {
      BeforePromotionFacts(cfg, State(), tick);
      BeginPass(tick);
      var windows := MergeWindows(EventWindows(cfg, events), 0.0);
      EndPass(tick, windows);
    }

    /** Passes until the schedule ends or a pass fails. Wherever the loop stops, what it leaves unfinished is
        the copy its failure interrupted, nothing was promoted that no event needs, and under sufficient
        settings the promised safety holds. */
    method MainLoop(start: real, ticks: seq<Tick>)
      requires State() == Start(start)
      modifies this
      ensures State() == Run(cfg, start, ticks) && partials == LeftBy(failure)
      ensures forall path :: path in published ==> Called(cfg, State(), path)
      ensures forall shortest :: Suffices(cfg, shortest) && ValidRun(cfg, start, ticks, shortest) ==> Safe(cfg, State())
    {
      for i := 0 to |ticks|
        invariant State() == Run(cfg, start, ticks[..i]) && failure.None?
      {
        assert ticks[..i + 1][..i] == ticks[..i];
        RunPass(ticks[i]);
        if failure.Some? {
          FailedRunStays(cfg, start, ticks, i + 1);
          break;
        }
      }
      assert ticks[..|ticks|] == ticks;
      InterruptedCopyIsLeft(cfg, start, ticks);
      forall path | path in published ensures Called(cfg, State(), path) {
        OnlyNeededIsPromoted(cfg, start, ticks, path);
      }
      forall shortest | Suffices(cfg, shortest) && ValidRun(cfg, start, ticks, shortest) ensures Safe(cfg, State()) {
        RunIsSafe(cfg, start, ticks, shortest);
      }
    }
  }
}
