/** The master playback clock: a media time anchored at a monotonic reading and extrapolated while playing. */
module MasterClock {
  import opened Wrappers

  datatype Mode = Playing | Paused | Seeking

  datatype Clock = Clock(anchorMedia: real, anchorAt: real, rate: real, mode: Mode)

  /** An operation; an absent argument defaults to the current time or rate. */
  datatype Operation =
    | Seek(media: Number)
    | Play(mediaOr: Option<Number>, rateOr: Option<Number>)
    | Pause(mediaOr: Option<Number>)
    | SetRate(rate: Number)

  function New(media: real, now: real): Clock {
    Clock(media, now, 1.0, Paused)
  }

  function Advance(elapsed: real, rate: real): real {
    elapsed * rate
  }

  function Current(c: Clock, now: real): real {
    if c.mode.Playing? then c.anchorMedia + Advance(now - c.anchorAt, c.rate) else c.anchorMedia
  }

  predicate Positive(rate: Number) {
    rate.Finite? && rate.v > 0.0
  }

  predicate Accepts(op: Operation) {
    match op
    case Seek(media) => media.Finite?
    case Play(media, rate) => (media.Some? ==> media.value.Finite?) && (rate.Some? ==> Positive(rate.value))
    case Pause(media) => media.Some? ==> media.value.Finite?
    case SetRate(rate) => Positive(rate)
  }

  /** The media time an operation states, if it states one. */
  function Stated(op: Operation): Option<Number> {
    match op
    case Seek(media) => Some(media)
    case Play(media, _) => media
    case Pause(media) => media
    case SetRate(_) => None
  }

  function RateAfter(op: Operation, rate: real): real
    requires Accepts(op)
  {
    match op
    case Play(_, Some(stated)) => stated.v
    case SetRate(stated) => stated.v
    case _ => rate
  }

  function ModeAfter(op: Operation, mode: Mode): Mode {
    match op
    case Seek(_) => Seeking
    case Play(_, _) => Playing
    case Pause(_) => Paused
    case SetRate(_) => mode
  }

  /** An operation that reads the clock at `first` for its default media time and at `second` for its anchor. */
  datatype Event = Event(op: Operation, first: real, second: real)

  function Apply(c: Clock, e: Event): Clock {
    if !Accepts(e.op) then c
    else
      var media := if Stated(e.op).Some? then Stated(e.op).value.v else Current(c, e.first);
      Clock(media, e.second, RateAfter(e.op, c.rate), ModeAfter(e.op, c.mode))
  }

  class MasterPlaybackClock {
    var anchorMediaTimeMs: real
    var anchorMonotonicMs: real
    var playbackRateValue: real
    var stateValue: Mode

    constructor (media: real, now: real)
      ensures View() == New(media, now)
    {
      anchorMediaTimeMs, anchorMonotonicMs, playbackRateValue, stateValue := media, now, 1.0, Paused;
    }

    /** The constructor throws on a media time that is not finite. */
    static method Create(initial: Number, now: real) returns (clock: MasterPlaybackClock?)
      ensures clock != null <==> initial.Finite?
      ensures clock != null ==> fresh(clock) && clock.View() == New(initial.v, now)
    {
      if initial.NonFinite? {
        return null;
      }
      clock := new MasterPlaybackClock(initial.v, now);
    }

    function View(): Clock
      reads this
    {
      Clock(anchorMediaTimeMs, anchorMonotonicMs, playbackRateValue, stateValue)
    }

    method CurrentTimeMs(now: real) returns (media: real)
      ensures media == Current(View(), now)
    {
      if !stateValue.Playing? {
        return anchorMediaTimeMs;
      }
      return anchorMediaTimeMs + (now - anchorMonotonicMs) * playbackRateValue;
    }

    method SeekTo(mediaTimeMs: Number, now: real) returns (ok: bool)
      modifies this
      ensures ok == Accepts(Seek(mediaTimeMs))
      ensures View() == Apply(old(View()), Event(Seek(mediaTimeMs), now, now))
    {
      if mediaTimeMs.NonFinite? {
        return false;
      }
      anchorMediaTimeMs, anchorMonotonicMs, stateValue := mediaTimeMs.v, now, Seeking;
      return true;
    }

    method PlayFrom(mediaTimeMs: Option<Number>, playbackRate: Option<Number>, first: real, second: real)
        returns (ok: bool)
      modifies this
      ensures ok == Accepts(Play(mediaTimeMs, playbackRate))
      ensures View() == Apply(old(View()), Event(Play(mediaTimeMs, playbackRate), first, second))
    {
      var media, rate: Number;
      if mediaTimeMs.Some? {
        media := mediaTimeMs.value;
      } else {
        var current := CurrentTimeMs(first);
        media := Finite(current);
      }
      rate := if playbackRate.Some? then playbackRate.value else Finite(playbackRateValue);
      if media.NonFinite? || (playbackRate.Some? && !Positive(rate)) {
        return false;
      }
      anchorMediaTimeMs, anchorMonotonicMs, playbackRateValue, stateValue := media.v, second, rate.v, Playing;
      return true;
    }

    method PauseAt(mediaTimeMs: Option<Number>, first: real, second: real) returns (ok: bool)
      modifies this
      ensures ok == Accepts(Pause(mediaTimeMs))
      ensures View() == Apply(old(View()), Event(Pause(mediaTimeMs), first, second))
    {
      var media: Number;
      if mediaTimeMs.Some? {
        media := mediaTimeMs.value;
      } else {
        var current := CurrentTimeMs(first);
        media := Finite(current);
      }
      if media.NonFinite? {
        return false;
      }
      anchorMediaTimeMs, anchorMonotonicMs, stateValue := media.v, second, Paused;
      return true;
    }

    method SetPlaybackRate(playbackRate: Number, first: real, second: real) returns (ok: bool)
      modifies this
      ensures ok == Accepts(SetRate(playbackRate))
      ensures View() == Apply(old(View()), Event(SetRate(playbackRate), first, second))
    {
      if !Positive(playbackRate) {
        return false;
      }
      var current := CurrentTimeMs(first);
      anchorMediaTimeMs, anchorMonotonicMs, playbackRateValue := current, second, playbackRate.v;
      return true;
    }
  }

  // ----- what a run of operations adds up to, without anchors -----

  function Run(c: Clock, events: seq<Event>): Clock {
    if events == [] then c else Apply(Run(c, events[..|events| - 1]), events[|events| - 1])
  }

  /** The rate the accepted operations leave in force. */
  function RateOf(events: seq<Event>): real {
    if events == [] then 1.0
    else
      var e, before := events[|events| - 1], RateOf(events[..|events| - 1]);
      if Accepts(e.op) then RateAfter(e.op, before) else before
  }

  function ModeOf(events: seq<Event>): Mode {
    if events == [] then Paused
    else
      var e, before := events[|events| - 1], ModeOf(events[..|events| - 1]);
      if Accepts(e.op) then ModeAfter(e.op, before) else before
  }

  /** The media time stated last. */
  function LastStated(media: real, events: seq<Event>): real {
    if events == [] then media
    else
      var e := events[|events| - 1];
      if Accepts(e.op) && Stated(e.op).Some? then Stated(e.op).value.v else LastStated(media, events[..|events| - 1])
  }

  /** When the operation that is in force took effect. */
  function Since(start: real, events: seq<Event>): real {
    if events == [] then start
    else
      var e := events[|events| - 1];
      if Accepts(e.op) then e.second else Since(start, events[..|events| - 1])
  }

  /** The part of it that was played before the operation in force. */
  function Earlier(start: real, events: seq<Event>): real
  {
    if events == [] then 0.0
    else
      var e, before := events[|events| - 1], events[..|events| - 1];
      if !Accepts(e.op) then Earlier(start, before)
      else if Stated(e.op).Some? then 0.0
      else Earlier(start, before)
           + if ModeOf(before).Playing? then Advance(e.second - Since(start, before), RateOf(before)) else 0.0
  }

  /** Rate times playing time, from the last stated media time up to `now`. */
  function Played(start: real, events: seq<Event>, now: real): real {
    var running := if ModeOf(events).Playing? then Advance(now - Since(start, events), RateOf(events)) else 0.0;
    running + Earlier(start, events)
  }

  /** Rate times the time between the two clock reads of each operation that kept the playing position,
      since the last stated media time. */
  function Lag(events: seq<Event>): real {
    if events == [] then 0.0
    else
      var e, before := events[|events| - 1], events[..|events| - 1];
      if !Accepts(e.op) then Lag(before)
      else if Stated(e.op).Some? then 0.0
      else Lag(before) + if ModeOf(before).Playing? then Advance(e.second - e.first, RateOf(before)) else 0.0
  }

  lemma {:induction false} StateOfRun(media: real, start: real, events: seq<Event>)
    ensures var c := Run(New(media, start), events);
            c.rate == RateOf(events) && c.mode == ModeOf(events) && c.anchorAt == Since(start, events)
  {
    if events != [] {
      StateOfRun(media, start, events[..|events| - 1]);
    }
  }

  lemma {:induction false} SplitAtRead(first: real, second: real, since: real, rate: real)
    ensures Advance(first - since, rate) == Advance(second - since, rate) - Advance(second - first, rate)
  {}

  lemma {:induction false} AnchorAddsUp(media: real, start: real, events: seq<Event>)
    ensures Run(New(media, start), events).anchorMedia
            == LastStated(media, events) + Earlier(start, events) - Lag(events)
  {
    if events != [] {
      var e, before := events[|events| - 1], events[..|events| - 1];
      AnchorAddsUp(media, start, before);
      StateOfRun(media, start, before);
      SplitAtRead(e.first, e.second, Since(start, before), RateOf(before));
    }
  }

  /** After any operations, accepted or not, the current time is the last stated media time plus what has
      been played since, less the lag. */
  lemma {:induction false} CurrentTimeAddsUp(media: real, start: real, events: seq<Event>, now: real)
    ensures Current(Run(New(media, start), events), now)
         == LastStated(media, events) + Played(start, events, now) - Lag(events)
  {
    AnchorAddsUp(media, start, events);
    StateOfRun(media, start, events);
  }

  predicate ReadsInOrder(events: seq<Event>) {
    forall i :: 0 <= i < |events| ==> events[i].first <= events[i].second
  }

  predicate ReadsCoincide(events: seq<Event>) {
    forall i :: 0 <= i < |events| ==> events[i].first == events[i].second
  }

  lemma {:induction false} RatesArePositive(events: seq<Event>)
    ensures RateOf(events) > 0.0
  {
    if events != [] {
      RatesArePositive(events[..|events| - 1]);
    }
  }

  lemma {:induction false} AdvanceSign(a: real, b: real)
    requires a >= 0.0 && b > 0.0
    ensures Advance(a, b) >= 0.0 && (a == 0.0 ==> Advance(a, b) == 0.0)
  {}

  /** The clock only ever lags, and not at all when the reads inside each operation coincide. */
  lemma {:induction false} LagIsNonnegative(events: seq<Event>)
    requires ReadsInOrder(events)
    ensures Lag(events) >= 0.0
    ensures ReadsCoincide(events) ==> Lag(events) == 0.0
  {
    if events != [] {
      var e, before := events[|events| - 1], events[..|events| - 1];
      LagIsNonnegative(before);
      RatesArePositive(before);
      AdvanceSign(e.second - e.first, RateOf(before));
    }
  }

  // ----- when the clock runs, and how fast -----

  /** The last accepted operation that was not a change of rate was a play. */
  predicate Started(events: seq<Event>) {
    exists i :: && 0 <= i < |events| && Accepts(events[i].op) && events[i].op.Play?
                && forall j :: i < j < |events| && Accepts(events[j].op) ==> events[j].op.SetRate?
  }

  /** The operation sets the rate. */
  predicate Sets(op: Operation, rate: real) {
    op == SetRate(Finite(rate)) || (op.Play? && op.rateOr == Some(Finite(rate)))
  }

  predicate KeepsRate(op: Operation) {
    op.Seek? || op.Pause? || (op.Play? && op.rateOr == None)
  }

  /** The last accepted operation that sets a rate set this one, or none did and it is 1. */
  predicate InForce(events: seq<Event>, rate: real) {
    || (rate == 1.0 && forall j :: 0 <= j < |events| && Accepts(events[j].op) ==> KeepsRate(events[j].op))
    || (exists i :: && 0 <= i < |events| && Accepts(events[i].op) && Sets(events[i].op, rate)
                    && forall j :: i < j < |events| && Accepts(events[j].op) ==> KeepsRate(events[j].op))
  }

  lemma {:induction false} OneMoreStarted(events: seq<Event>)
    requires events != []
    ensures var e, before := events[|events| - 1], events[..|events| - 1];
            Started(events) <==> if Accepts(e.op) && !e.op.SetRate? then e.op.Play? else Started(before)
  {
    var last, before := |events| - 1, events[..|events| - 1];
    if Accepts(events[last].op) && !events[last].op.SetRate? {
      if events[last].op.Play? {
        assert Accepts(events[last].op);
      }
    } else {
      if Started(before) {
        var i :| && 0 <= i < |before| && Accepts(before[i].op) && before[i].op.Play?
                 && forall j :: i < j < |before| && Accepts(before[j].op) ==> before[j].op.SetRate?;
        assert events[i] == before[i];
      }
      if Started(events) {
        var i :| && 0 <= i < |events| && Accepts(events[i].op) && events[i].op.Play?
                 && forall j :: i < j < |events| && Accepts(events[j].op) ==> events[j].op.SetRate?;
        assert before[i] == events[i];
      }
    }
  }

  lemma {:induction false} StartedIsPlaying(events: seq<Event>)
    ensures Started(events) <==> ModeOf(events).Playing?
  {
    if events != [] {
      StartedIsPlaying(events[..|events| - 1]);
      OneMoreStarted(events);
    }
  }

  lemma {:induction false} InForceBefore(events: seq<Event>, rate: real)
    requires events != [] && InForce(events, rate)
    ensures var e, before := events[|events| - 1], events[..|events| - 1];
            if Accepts(e.op) && !KeepsRate(e.op) then Sets(e.op, rate) else InForce(before, rate)
  {
    var last, before := |events| - 1, events[..|events| - 1];
    if exists i :: && 0 <= i < |events| && Accepts(events[i].op) && Sets(events[i].op, rate)
                   && forall j :: i < j < |events| && Accepts(events[j].op) ==> KeepsRate(events[j].op) {
      var i :| && 0 <= i < |events| && Accepts(events[i].op) && Sets(events[i].op, rate)
               && forall j :: i < j < |events| && Accepts(events[j].op) ==> KeepsRate(events[j].op);
      if i < last {
        assert before[i] == events[i];
      }
    }
  }

  lemma {:induction false} InForceIsTheRate(events: seq<Event>, rate: real)
    requires InForce(events, rate)
    ensures RateOf(events) == rate
  {
    if events != [] {
      InForceBefore(events, rate);
      if !Accepts(events[|events| - 1].op) || KeepsRate(events[|events| - 1].op) {
        InForceIsTheRate(events[..|events| - 1], rate);
      }
    }
  }

  /** After any operations, the clock runs exactly when it was started and neither a pause nor a seek has
      been accepted since, and then at the rate that was set last; otherwise it stands still. */
  lemma {:induction false} ClockRunsExactly(media: real, start: real, events: seq<Event>, rate: real, a: real, b: real)
    requires InForce(events, rate)
    ensures var c := Run(New(media, start), events);
            Current(c, b) - Current(c, a) == if Started(events) then (b - a) * rate else 0.0
  {
    StateOfRun(media, start, events);
    StartedIsPlaying(events);
    InForceIsTheRate(events, rate);
    SplitAtRead(a, b, Since(start, events), rate);
  }

  predicate Names(op: Operation, number: Number) {
    Stated(op) == Some(number) || op == SetRate(number) || (op.Play? && op.rateOr == Some(number))
  }

  /** An operation is refused exactly for a number that is not finite or a rate that is not positive, and then
      changes no read of the clock. At the instant of any other the clock reads the media time it states, else
      what it read before. */
  lemma {:induction false} OperationIsExact(c: Clock, e: Event)
    ensures !Accepts(e.op) <==> Names(e.op, NonFinite) || exists rate :: Sets(e.op, rate) && rate <= 0.0
    ensures !Accepts(e.op) ==> forall now :: Current(Apply(c, e), now) == Current(c, now)
    ensures Accepts(e.op) ==> Current(Apply(c, e), e.second)
                              == match e.op
                                 case Seek(m) => m.v
                                 case Play(Some(m), _) => m.v
                                 case Pause(Some(m)) => m.v
                                 case _ => Current(c, e.first)
  {
    if e.op.SetRate? && e.op.rate.Finite? {
      assert Sets(e.op, e.op.rate.v);
    } else if e.op.Play? && e.op.rateOr.Some? && e.op.rateOr.value.Finite? {
      assert Sets(e.op, e.op.rateOr.value.v);
    }
    if Accepts(e.op) {
      assert Advance(e.second - e.second, Apply(c, e).rate) == 0.0 * Apply(c, e).rate;
    }
  }

  /** An operation that states no media time does not move the clock back. */
  lemma {:induction false} OperationKeepsGoing(c: Clock, e: Event, before: real, after: real)
    requires c.rate > 0.0 && (Accepts(e.op) ==> Stated(e.op).None?) && before <= e.first <= e.second <= after
    ensures Current(c, before) <= Current(Apply(c, e), after)
  {
    AdvanceSign(e.first - before, c.rate);
    AdvanceSign(after - before, c.rate);
    SplitAtRead(before, e.first, c.anchorAt, c.rate);
    SplitAtRead(before, after, c.anchorAt, c.rate);
    if Accepts(e.op) {
      AdvanceSign(after - e.second, RateAfter(e.op, c.rate));
    }
  }

  lemma {:induction false} RateStaysPositive(c: Clock, events: seq<Event>)
    requires c.rate > 0.0
    ensures Run(c, events).rate > 0.0
  {
    if events != [] {
      RateStaysPositive(c, events[..|events| - 1]);
    }
  }

  lemma {:induction false} TimePasses(c: Clock, before: real, after: real)
    requires c.rate > 0.0 && before <= after
    ensures Current(c, before) <= Current(c, after)
  {
    AdvanceSign(after - before, c.rate);
    SplitAtRead(before, after, c.anchorAt, c.rate);
  }

  /** The reads of the operations lie between `low` and `high` and never go back. */
  predicate ReadsBetween(low: real, events: seq<Event>, high: real) {
    if events == [] then low <= high
    else
      var e := events[|events| - 1];
      ReadsBetween(low, events[..|events| - 1], e.first) && e.first <= e.second <= high
  }

  /** Over any run of operations none of which is accepted with a stated media time, a read of the clock
      before it is at most a read after it. */
  lemma {:induction false} KeepsGoingForward(c: Clock, events: seq<Event>, before: real, after: real)
    requires c.rate > 0.0 && ReadsBetween(before, events, after)
    requires forall i :: 0 <= i < |events| && Accepts(events[i].op) ==> Stated(events[i].op).None?
    ensures Current(c, before) <= Current(Run(c, events), after)
  {
    if events == [] {
      TimePasses(c, before, after);
    } else {
      var init, e := events[..|events| - 1], events[|events| - 1];
      KeepsGoingForward(c, init, before, e.first);
      RateStaysPositive(c, init);
      OperationKeepsGoing(Run(c, init), e, e.first, after);
    }
  }
}
