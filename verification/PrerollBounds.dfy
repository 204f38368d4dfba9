/** The settings of the rolling prebuffer that suffice are exactly those under which nothing disappears:
    for all others, runs that fail. */
module PrerollBounds {
  import opened Wrappers
  import opened Sorting
  import opened Windows
  import opened Preroll
  import opened PrerollRuns

  // ----- a buffer too short -----

  ghost predicate Disappears(cfg: Config, clock: real, ticks: seq<Tick>) {
    var failure := Run(cfg, clock, ticks).failure;
    failure.Some? && failure.value.Disappeared?
  }

  lemma {:induction false} SingleRow(cfg: Config, m: Monitor, row: HookRow)
    requires Eligible(cfg.stream, row)
    ensures Listing(cfg.stream, [row]) == [FragmentOf(row)] && AnnounceAll(cfg, m, [row]) == Announce(cfg, m, row)
  {
    assert [row][..0] == [];
    assert Listing(cfg.stream, []) == [];
  }

  lemma {:induction false} SingleFragment(cfg: Config, m: Monitor, f: Fragment, windows: seq<Window>, cutoff: real)
    ensures CollectAll(m, [f], windows, cutoff) == Collect(m, f, windows, cutoff)
    ensures m.failure.None? && f.path !in m.promoted && OverlapsAny(f.Span(), windows)
            ==> PromoteAll(cfg, m, [f], windows) == Promote(cfg, m, f)
  {
    assert [f][..0] == [];
    assert CollectAll(m, [], windows, cutoff) == m && PromoteAll(cfg, m, [], windows) == m;
  }

  lemma {:induction false} NothingToPromote(cfg: Config, m: Monitor, windows: seq<Window>)
    requires m.rows == []
    ensures AfterPromotion(cfg, m, windows) == m
  {}

  lemma {:induction false} OneCollected(cfg: Config, m: Monitor, row: HookRow, windows: seq<Window>, cutoff: real)
    requires m.rows == [] && m.files == {} && m.promoted == map[] && row.start + row.duration < cutoff
    requires !OverlapsAny(FragmentOf(row).Span(), windows)
    ensures Collect(Announce(cfg, m, row), FragmentOf(row), windows, cutoff)
         == m.(rows := [row], gcRemoved := m.gcRemoved + [row.path])
  {
    assert Paths(Listing(cfg.stream, [])) == {};
    assert {row.path} - {row.path} == {};
  }

  /** A pass in which the collector meets one new fragment that is old and overlaps nothing. */
  lemma {:induction false} CollectingPass(cfg: Config, m: Monitor, now: real, row: HookRow)
    requires m.failure.None? && m.rows == [] && m.files == {} && m.promoted == map[]
    requires Eligible(cfg.stream, row) && row.start + row.duration < now - cfg.buffer
    requires !OverlapsAny(FragmentOf(row).Span(), Required(cfg, m.events))
    ensures Iterate(cfg, m, Tick(now, [], [], [row]))
         == m.(rows := [row], gcRemoved := m.gcRemoved + [row.path], clock := now)
  {
    var tick, before, windows := Tick(now, [], [], [row]), m.(clock := now), Required(cfg, m.events);
    NothingToPromote(cfg, before, windows);
    SingleRow(cfg, before, row);
    SingleFragment(cfg, Announce(cfg, before, row), FragmentOf(row), windows, now - cfg.buffer);
    OneCollected(cfg, before, row, windows, now - cfg.buffer);
    assert BeforePromotion(cfg, m, tick) == before;
  }

  /** A pass in which an event fires whose windows need the collected fragment. */
  lemma {:induction false} FailingPass(cfg: Config, m: Monitor, eventTime: real, row: HookRow)
    requires m.failure.None? && m.rows == [row] && m.files == {} && m.promoted == map[]
    requires Eligible(cfg.stream, row)
    requires OverlapsAny(FragmentOf(row).Span(), Required(cfg, m.events + [eventTime]))
    ensures Iterate(cfg, m, Tick(eventTime, [eventTime], [], [])).failure == Some(Disappeared(row.path))
  {
    var tick := Tick(eventTime, [eventTime], [], []);
    assert [eventTime][..0] == [];
    var read := m.(clock := eventTime);
    assert TriggerAll(read, []) == read;
    var before := Trigger(read, eventTime);
    assert BeforePromotion(cfg, m, tick) == before;
    SingleRow(cfg, before, row);
    SingleFragment(cfg, before, FragmentOf(row), Required(cfg, before.events), 0.0);
  }

  lemma {:induction false} SingleWindow(cfg: Config, eventTime: real)
    ensures Required(cfg, []) == [] && Required(cfg, [eventTime]) == [EventWindow(cfg, eventTime)]
  {
    assert EventWindows(cfg, []) == [];
    var w := EventWindow(cfg, eventTime);
    assert EventWindows(cfg, [eventTime]) == [w];
    WindowLeIsTotal();
    SortOfSorted(WindowLe, [w]);
    assert MergeFrom(w, [w][1..], 0.0) == [w];
  }

  lemma {:induction false} TwoTicks(cfg: Config, clock: real, first: Tick, second: Tick)
    ensures Run(cfg, clock, [first, second]) == Iterate(cfg, Iterate(cfg, Start(clock), first), second)
  {
    assert [first][..0] == [] && [first, second][..1] == [first];
    assert Run(cfg, clock, []) == Start(clock);
    assert Run(cfg, clock, [first]) == Iterate(cfg, Start(clock), first);
    assert Run(cfg, clock, [first, second]) == Iterate(cfg, Run(cfg, clock, [first]), second);
  }

  predicate TickFits(clock: real, tick: Tick, shortest: real) {
    ClockAdvances(clock, tick) && AtLeast(tick.hooksBefore, shortest) && AtLeast(tick.hooksBetween, shortest)
  }

  lemma {:induction false} OneMoreTickIsValid(cfg: Config, clock: real, ticks: seq<Tick>, tick: Tick, shortest: real)
    requires ValidRun(cfg, clock, ticks, shortest) && TickFits(Run(cfg, clock, ticks).clock, tick, shortest)
    ensures ValidRun(cfg, clock, ticks + [tick], shortest)
  {
    assert (ticks + [tick])[..|ticks|] == ticks;
  }

  lemma {:induction false} OneTickIsValid(cfg: Config, clock: real, tick: Tick, shortest: real)
    requires TickFits(clock, tick, shortest)
    ensures ValidRun(cfg, clock, [tick], shortest) && Run(cfg, clock, [tick]) == Iterate(cfg, Start(clock), tick)
  {
    assert [tick][..0] == [];
  }

  lemma {:induction false} TwoTicksAreValid(cfg: Config, clock: real, first: Tick, second: Tick, shortest: real)
    requires TickFits(clock, first, shortest) && TickFits(Iterate(cfg, Start(clock), first).clock, second, shortest)
    ensures ValidRun(cfg, clock, [first, second], shortest)
  {
    OneTickIsValid(cfg, clock, first, shortest);
    OneMoreTickIsValid(cfg, clock, [first], second, shortest);
    assert [first] + [second] == [first, second];
  }

  /** A buffer shorter than the pre-roll loses a fragment, however long all fragments are, that an event
      fired in the same instant needs. */
  lemma {:induction false} ShortBufferDisappears(cfg: Config, shortest: real)
    requires cfg.buffer < cfg.preRoll
    ensures exists clock, ticks :: ValidRun(cfg, clock, ticks, shortest) && Disappears(cfg, clock, ticks)
  {
    var t := (cfg.preRoll + cfg.buffer) / 2.0;
    var length := Max(shortest, if t + cfg.postRoll > 0.0 then 1.0 else 1.0 - t - cfg.postRoll);
    var row := HookRow(cfg.stream, PREBUFFER, -length, length, false);
    var first, second := Tick(t, [], [], [row]), Tick(t, [t], [], []);
    SingleWindow(cfg, t);
    CollectingPass(cfg, Start(t), t, row);
    var m := Iterate(cfg, Start(t), first);
    assert Overlaps(FragmentOf(row).Span(), EventWindow(cfg, t));
    assert m.events + [t] == [t];
    FailingPass(cfg, m, t, row);
    TwoTicks(cfg, t, first, second);
    TwoTicksAreValid(cfg, t, first, second, shortest);
    assert Disappears(cfg, t, [first, second]);
  }

  // ----- durations too far below zero -----

  /** `n` event windows of the given width before time 0. */
  function Back(n: nat, width: real): real {
    if n == 0 then 0.0 else Back(n - 1, width) - width
  }

  lemma {:induction false} BackIsProduct(n: nat, width: real)
    ensures Back(n, width) == -(n as real * width)
  {
    if n > 0 {
      BackIsProduct(n - 1, width);
      var k := (n - 1) as real;
      assert n as real == k + 1.0;
      assert (k + 1.0) * width == k * width + width;
    }
  }

  lemma {:induction false} StrictProduct(a: real, b: real, c: real)
    requires a < b && c > 0.0
    ensures a * c < b * c
  {
    assert (b - a) * c > 0.0;
  }

  lemma {:induction false} ReachesBack(low: real, width: real) returns (n: nat)
    requires low < 0.0 < width
    ensures n > 0 && Back(n, width) < low
  {
    var quotient := -low / width;
    assert quotient > 0.0 && quotient * width == -low;
    n := quotient.Floor + 1;
    BackIsProduct(n, width);
    StrictProduct(quotient, n as real, width);
  }

  /** Events whose windows abut and end at time 0. */
  function Times(cfg: Config, n: nat): seq<real> {
    if n == 0 then [] else [Back(n, cfg.preRoll + cfg.postRoll) + cfg.preRoll] + Times(cfg, n - 1)
  }

  lemma {:induction false} TimesAt(cfg: Config, n: nat)
    ensures |Times(cfg, n)| == n
    ensures forall i :: 0 <= i < n ==> Times(cfg, n)[i] == Back(n - i, cfg.preRoll + cfg.postRoll) + cfg.preRoll
  {
    if n > 0 {
      TimesAt(cfg, n - 1);
      assert forall i :: 0 < i < n ==> Times(cfg, n)[i] == Times(cfg, n - 1)[i - 1];
    }
  }

  /** `count` windows of the given width, the first one starting `n` widths before 0. */
  predicate IsChain(ws: seq<Window>, n: nat, width: real, count: nat) {
    |ws| == count <= n && forall i :: 0 <= i < count ==> ws[i] == Window(Back(n - i, width), Back(n - i, width) + width)
  }

  lemma {:induction false} ChainMerges(ws: seq<Window>, n: nat, width: real)
    requires n > 0 && width > 0.0 && IsChain(ws, n, width, n)
    ensures Merged(ws, 0.0) == [Window(Back(n, width), 0.0)]
    ensures Merged(ws + [Window(0.0, width)], 0.0) == [Window(Back(n, width), width)]
  {
    assert Back(1, width) == Back(0, width) - width;
    AbuttingMerge(ws);
    AbuttingMerge(ws + [Window(0.0, width)]);
  }

  lemma {:induction false} TimesMerge(cfg: Config, n: nat)
    requires n > 0 && cfg.preRoll + cfg.postRoll > 0.0
    ensures var width := cfg.preRoll + cfg.postRoll;
            && Required(cfg, Times(cfg, n)) == [Window(Back(n, width), 0.0)]
            && Required(cfg, Times(cfg, n) + [cfg.preRoll]) == [Window(Back(n, width), width)]
  {
    var width, ws := cfg.preRoll + cfg.postRoll, EventWindows(cfg, Times(cfg, n));
    TimesAt(cfg, n);
    ChainMerges(ws, n, width);
    assert EventWindows(cfg, Times(cfg, n) + [cfg.preRoll]) == ws + [Window(0.0, width)];
  }

  lemma {:induction false} BackFalls(i: nat, j: nat, width: real)
    requires i <= j && width > 0.0
    ensures Back(j, width) <= Back(i, width)
  {
    if i < j {
      BackFalls(i, j - 1, width);
    }
  }

  lemma {:induction false} LastTime(cfg: Config, n: nat)
    requires n > 0
    ensures Times(cfg, n) != [] && Times(cfg, n)[|Times(cfg, n)| - 1] == -cfg.postRoll
  {
    TimesAt(cfg, n);
    assert Back(1, cfg.preRoll + cfg.postRoll) == Back(0, cfg.preRoll + cfg.postRoll) - (cfg.preRoll + cfg.postRoll);
  }

  lemma {:induction false} TimesRise(cfg: Config, n: nat)
    requires n > 0 && cfg.preRoll + cfg.postRoll > 0.0
    ensures |Times(cfg, n)| > 0 && TimesFrom(Times(cfg, n)[0], Times(cfg, n))
  {
    TimesAt(cfg, n);
    var width, times := cfg.preRoll + cfg.postRoll, Times(cfg, n);
    forall i, j | 0 <= i <= j < n ensures times[i] <= times[j] {
      BackFalls(n - j, n - i, width);
    }
  }

  /** A pass in which only events fire. */
  lemma {:induction false} EventsPass(cfg: Config, m: Monitor, now: real, times: seq<real>)
    requires m.failure.None? && m.rows == [] && times != []
    ensures Iterate(cfg, m, Tick(now, times, [], []))
         == m.(events := m.events + times, clock := times[|times| - 1])
  {
    TriggerAllFacts(m.(clock := now), times);
  }

  /** The events fire, then a fragment with the duration is finalized and collected, then one more event fires. */
  function LosingRun(cfg: Config, n: nat, duration: real): seq<Tick>
    requires n > 0
  {
    var times, row := Times(cfg, n), HookRow(cfg.stream, PREBUFFER, 0.0, duration, false);
    [Tick(if times == [] then 0.0 else times[0], times, [], []), Tick(cfg.preRoll, [], [], [row]),
     Tick(cfg.preRoll, [cfg.preRoll], [], [])]
  }

  /** The state before the last tick: the fragment is gone. */
  predicate Collected(cfg: Config, n: nat, duration: real, m: Monitor) {
    && m.failure.None? && m.rows == [HookRow(cfg.stream, PREBUFFER, 0.0, duration, false)]
    && m.files == {} && m.promoted == map[] && m.events == Times(cfg, n) && m.clock == cfg.preRoll
  }

  lemma {:induction false} EventsHaveFired(cfg: Config, times: seq<real>)
    requires times != []
    ensures Iterate(cfg, Start(times[0]), Tick(times[0], times, [], []))
         == Start(times[0]).(events := times, clock := times[|times| - 1])
  {
    EventsPass(cfg, Start(times[0]), times[0], times);
    assert [] + times == times;
  }

  lemma {:induction false} NothingOverlapsYet(cfg: Config, n: nat, duration: real)
    requires n > 0 && cfg.preRoll + cfg.postRoll > 0.0
    ensures !OverlapsAny(FragmentOf(HookRow(cfg.stream, PREBUFFER, 0.0, duration, false)).Span(),
            Required(cfg, Times(cfg, n)))
  {
    TimesMerge(cfg, n);
  }

  lemma {:induction false} FragmentIsCollected(cfg: Config, n: nat, duration: real, m: Monitor)
    requires n > 0 && cfg.buffer >= cfg.preRoll && cfg.preRoll + cfg.postRoll > 0.0
             && duration < cfg.preRoll - cfg.buffer
    requires Times(cfg, n) != [] && m == Start(Times(cfg, n)[0]).(events := Times(cfg, n), clock := -cfg.postRoll)
    ensures Collected(cfg, n, duration, Iterate(cfg, m, LosingRun(cfg, n, duration)[1]))
  {
    NothingOverlapsYet(cfg, n, duration);
    CollectingPass(cfg, m, cfg.preRoll, HookRow(cfg.stream, PREBUFFER, 0.0, duration, false));
  }

  lemma {:induction false} LosingRunFails(cfg: Config, n: nat, duration: real, m: Monitor)
    requires cfg.preRoll + cfg.postRoll > 0.0 && n > 0 && Back(n, cfg.preRoll + cfg.postRoll) < duration
    requires Collected(cfg, n, duration, m)
    ensures Iterate(cfg, m, Tick(cfg.preRoll, [cfg.preRoll], [], [])).failure == Some(Disappeared(PREBUFFER))
  {
    var width := cfg.preRoll + cfg.postRoll;
    TimesMerge(cfg, n);
    assert Window(Back(n, width), width) in Required(cfg, Times(cfg, n) + [cfg.preRoll]);
    FailingPass(cfg, m, cfg.preRoll, m.rows[0]);
  }

  lemma {:induction false} ThreeTicks(cfg: Config, clock: real, ticks: seq<Tick>, shortest: real)
    requires |ticks| == 3
    requires var first := Iterate(cfg, Start(clock), ticks[0]);
             && TickFits(clock, ticks[0], shortest) && TickFits(first.clock, ticks[1], shortest)
             && TickFits(Iterate(cfg, first, ticks[1]).clock, ticks[2], shortest)
    ensures Run(cfg, clock, ticks)
            == Iterate(cfg, Iterate(cfg, Iterate(cfg, Start(clock), ticks[0]), ticks[1]), ticks[2])
    ensures ValidRun(cfg, clock, ticks, shortest)
  {
    TwoTicks(cfg, clock, ticks[0], ticks[1]);
    TwoTicksAreValid(cfg, clock, ticks[0], ticks[1], shortest);
    assert ticks[..2] == [ticks[0], ticks[1]] && ticks == [ticks[0], ticks[1]] + [ticks[2]];
    OneMoreTickIsValid(cfg, clock, [ticks[0], ticks[1]], ticks[2], shortest);
  }

  /** A fragment that "ends" before it starts by more than the buffer can spare is collected, and then
      lies inside the merger of the windows before it with the window of the next event. */
  lemma {:induction false} ShortDurationDisappears(cfg: Config, shortest: real)
    requires cfg.buffer >= cfg.preRoll && cfg.preRoll + cfg.postRoll > 0.0 && shortest < cfg.preRoll - cfg.buffer
    ensures exists clock, ticks :: ValidRun(cfg, clock, ticks, shortest) && Disappears(cfg, clock, ticks)
  {
    var n := ReachesBack(shortest, cfg.preRoll + cfg.postRoll);
    var ticks := LosingRun(cfg, n, shortest);
    var clock := ticks[0].now;
    TimesRise(cfg, n);
    LastTime(cfg, n);
    EventsHaveFired(cfg, Times(cfg, n));
    var fired := Iterate(cfg, Start(clock), ticks[0]);
    FragmentIsCollected(cfg, n, shortest, fired);
    LosingRunFails(cfg, n, shortest, Iterate(cfg, fired, ticks[1]));
    ThreeTicks(cfg, clock, ticks, shortest);
    assert Disappears(cfg, clock, ticks);
  }

  /** The settings that suffice are exactly those under which no run reaches the failure. */
  lemma {:induction false} BoundsAreExact(cfg: Config, shortest: real)
    ensures Suffices(cfg, shortest) <==>
            (forall clock, ticks :: ValidRun(cfg, clock, ticks, shortest) ==> !Disappears(cfg, clock, ticks))
  {
    if Suffices(cfg, shortest) {
      forall clock, ticks | ValidRun(cfg, clock, ticks, shortest) ensures !Disappears(cfg, clock, ticks) {
        RunIsSafe(cfg, clock, ticks, shortest);
      }
    } else if cfg.buffer < cfg.preRoll {
      ShortBufferDisappears(cfg, shortest);
    } else {
      ShortDurationDisappears(cfg, shortest);
    }
  }
}
