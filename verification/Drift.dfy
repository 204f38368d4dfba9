/** The playback drift controller: hysteresis between a soft entry and a soft exit, hard seeks above a
    limit, and cooldowns on both kinds of action. */
module Drift {
  import opened Wrappers

  datatype Config = Config(
    softEnter: real, softExit: real, hardSeek: real, rateCooldown: real, seekCooldown: real,
    maxAdjustment: real, minAdjustment: real)

  /** A time of last change; it starts at minus infinity. */
  datatype Instant = Never | At(t: real)

  datatype State = State(active: bool, lastRate: Instant, lastSeek: Instant)

  datatype Action = Idle | Rate(playbackRate: real) | HardSeek

  const INITIAL := State(false, Never, Never)

  function Min(a: real, b: real): real { if a <= b then a else b }

  function Abs(a: real): real { if a >= 0.0 then a else -a }

  predicate Cooling(now: real, last: Instant, cooldown: real) {
    last.At? && now - last.t < cooldown
  }

  function Limited(low: real, high: real, rise: real): real { Max(low, Min(high, low + rise)) }

  function Product(a: real, b: real): real { a * b }

  function Graded(cfg: Config, share: real): real {
    Limited(cfg.minAdjustment, cfg.maxAdjustment, Product(share, cfg.maxAdjustment - cfg.minAdjustment))
  }

  function Clip(share: real): real { Min(1.0, Max(0.0, share)) }

  function Adjustment(cfg: Config, magnitude: real): real {
    Graded(cfg, Clip((magnitude - cfg.softExit) / Max(1.0, cfg.hardSeek - cfg.softExit)))
  }

  function CorrectiveRate(cfg: Config, drift: real, base: real): real {
    var adjustment := Adjustment(cfg, Abs(drift));
    base * (if drift > 0.0 then 1.0 - adjustment else 1.0 + adjustment)
  }

  /** What a corrective rate is, from the drift and the base rate. */
  type Law = (real, real) -> real

  function ControllerLaw(cfg: Config): Law {
    (drift, base) => CorrectiveRate(cfg, drift, base)
  }

  function Decide(cfg: Config, s: State, drift: real, base: real, now: real, corrective: real): (State, Action) {
    var magnitude := Abs(drift);
    if magnitude >= cfg.hardSeek then
      if Cooling(now, s.lastSeek, cfg.seekCooldown) then (s, Idle)
      else (State(false, At(now), At(now)), HardSeek)
    else if Cooling(now, s.lastSeek, cfg.seekCooldown) then (s, Idle)
    else if s.active && magnitude <= cfg.softExit then (s.(active := false, lastRate := At(now)), Rate(base))
    else if !s.active && magnitude < cfg.softEnter then (s, Idle)
    else if Cooling(now, s.lastRate, cfg.rateCooldown) then (s.(active := true), Idle)
    else (s.(active := true, lastRate := At(now)), Rate(corrective))
  }

  /** One evaluation of finite inputs with a positive base rate. */
  function Evaluate(cfg: Config, law: Law, s: State, drift: real, base: real, now: real): (State, Action) {
    Decide(cfg, s, drift, base, now, law(drift, base))
  }

  /** What reset makes of any state. */
  function ResetState(cfg: Config, now: real): State {
    State(false, At(now - cfg.rateCooldown), At(now - cfg.seekCooldown))
  }

  class PlaybackDriftController {
    const cfg: Config
    var correctionActive: bool
    var lastRateChangeAt: Instant
    var lastHardSeekAt: Instant

    constructor (cfg: Config)
      ensures this.cfg == cfg && View() == INITIAL
    {
      this.cfg := cfg;
      correctionActive, lastRateChangeAt, lastHardSeekAt := false, Never, Never;
    }

    function View(): State
      reads this
    {
      State(correctionActive, lastRateChangeAt, lastHardSeekAt)
    }

    /** Both cooldowns count as just expired. */
    method Reset(now: real)
      modifies this
      ensures View() == ResetState(cfg, now)
    {
      correctionActive := false;
      lastRateChangeAt := At(now - cfg.rateCooldown);
      lastHardSeekAt := At(now - cfg.seekCooldown);
    }

    method EvaluateDrift(driftMs: Number, basePlaybackRate: Number, monotonicNowMs: Number) returns (action: Action)
      modifies this
      ensures if driftMs.NonFinite? || basePlaybackRate.NonFinite? || monotonicNowMs.NonFinite?
              || basePlaybackRate.v <= 0.0
              then action == Idle && View() == old(View())
              else (View(), action) == Evaluate(cfg, ControllerLaw(cfg), old(View()), driftMs.v, basePlaybackRate.v,
                monotonicNowMs.v)
    {
      if driftMs.NonFinite? || basePlaybackRate.NonFinite? || monotonicNowMs.NonFinite? || basePlaybackRate.v <= 0.0 {
        return Idle;
      }
      var drift, base, now := driftMs.v, basePlaybackRate.v, monotonicNowMs.v;
      var magnitude := Abs(drift);
      if magnitude >= cfg.hardSeek {
        if Cooling(now, lastHardSeekAt, cfg.seekCooldown) {
          return Idle;
        }
        correctionActive := false;
        lastHardSeekAt := At(now);
        lastRateChangeAt := At(now);
        return HardSeek;
      }
      if Cooling(now, lastHardSeekAt, cfg.seekCooldown) {
        return Idle;
      }
      if correctionActive {
        if magnitude <= cfg.softExit {
          correctionActive := false;
          lastRateChangeAt := At(now);
          return Rate(base);
        }
      } else if magnitude >= cfg.softEnter {
        correctionActive := true;
      } else {
        return Idle;
      }
      if Cooling(now, lastRateChangeAt, cfg.rateCooldown) {
        return Idle;
      }
      lastRateChangeAt := At(now);
      return Rate(CorrectiveRate(cfg, drift, base));
    }
  }

  // ----- one corrective rate -----

  lemma {:induction false} ProductMonotone(a: real, b: real, c: real)
    requires a <= b && c >= 0.0
    ensures Product(a, c) <= Product(b, c)
  {
    assert (b - a) * c >= 0.0;
  }

  lemma {:induction false} Interpolation(p: real, q: real, width: real)
    requires 0.0 <= p <= q <= 1.0
    ensures if width >= 0.0 then 0.0 <= Product(p, width) <= Product(q, width)
            else Product(p, width) <= 0.0 && Product(q, width) <= 0.0
  {
    if width >= 0.0 {
      ProductMonotone(0.0, p, width);
      ProductMonotone(p, q, width);
    } else {
      ProductMonotone(0.0, p, -width);
      ProductMonotone(0.0, q, -width);
      assert p * -width == -(p * width) && q * -width == -(q * width);
    }
  }

  lemma {:induction false} Clamped(low: real, high: real, x: real, y: real)
    requires if high >= low then 0.0 <= x <= y else x <= 0.0 && y <= 0.0
    ensures low <= Limited(low, high, x) <= Max(low, high)
    ensures Limited(low, high, x) <= Limited(low, high, y)
  {}

  lemma {:induction false} GradedFacts(cfg: Config, p: real, q: real)
    requires 0.0 <= p <= q <= 1.0
    ensures cfg.minAdjustment <= Graded(cfg, p) <= Max(cfg.minAdjustment, cfg.maxAdjustment)
    ensures Graded(cfg, p) <= Graded(cfg, q)
  {
    var width := cfg.maxAdjustment - cfg.minAdjustment;
    Interpolation(p, q, width);
    Clamped(cfg.minAdjustment, cfg.maxAdjustment, Product(p, width), Product(q, width));
  }

  lemma {:induction false} QuotientMonotone(a: real, b: real, c: real)
    requires a <= b && c > 0.0
    ensures a / c <= b / c
  {
    assert (b - a) / c >= 0.0;
  }

  lemma {:induction false} SharesRise(a: real, b: real, span: real)
    requires a <= b && span > 0.0
    ensures 0.0 <= Clip(a / span) <= Clip(b / span) <= 1.0
  {
    QuotientMonotone(a, b, span);
  }

  lemma {:induction false} QuotientOfProduct(a: real, b: real)
    requires b > 0.0
    ensures Product(a, b) / b == a
  {}

  /** The adjustment stays between the configured bounds (the greater of the two when they are swapped)
      and grows with the drift. */
  lemma {:induction false} AdjustmentFacts(cfg: Config, a: real, b: real)
    requires a <= b
    ensures cfg.minAdjustment <= Adjustment(cfg, a) <= Max(cfg.minAdjustment, cfg.maxAdjustment)
    ensures Adjustment(cfg, a) <= Adjustment(cfg, b)
  {
    var span := Max(1.0, cfg.hardSeek - cfg.softExit);
    SharesRise(a - cfg.softExit, b - cfg.softExit, span);
    GradedFacts(cfg, Clip((a - cfg.softExit) / span), Clip((b - cfg.softExit) / span));
  }

  /** The adjustment is the smallest one up to the exit band, the largest from the seek limit on, and in
      between grows in proportion to the drift. */
  lemma {:induction false} AdjustmentIsLinear(cfg: Config, magnitude: real, share: real)
    requires cfg.minAdjustment <= cfg.maxAdjustment && cfg.hardSeek - cfg.softExit >= 1.0
    requires 0.0 <= share <= 1.0 && magnitude - cfg.softExit == Product(share, cfg.hardSeek - cfg.softExit)
    ensures Adjustment(cfg, magnitude)
         == cfg.minAdjustment + Product(share, cfg.maxAdjustment - cfg.minAdjustment)
    ensures forall m :: m <= cfg.softExit ==> Adjustment(cfg, m) == cfg.minAdjustment
    ensures forall m :: m >= cfg.hardSeek ==> Adjustment(cfg, m) == cfg.maxAdjustment
  {
    var span, width := cfg.hardSeek - cfg.softExit, cfg.maxAdjustment - cfg.minAdjustment;
    QuotientOfProduct(share, span);
    Interpolation(share, 1.0, width);
    assert Product(1.0, width) == width && Product(0.0, width) == 0.0;
    forall m | m <= cfg.softExit ensures Adjustment(cfg, m) == cfg.minAdjustment {
      SharesRise(m - cfg.softExit, 0.0, span);
    }
    forall m | m >= cfg.hardSeek ensures Adjustment(cfg, m) == cfg.maxAdjustment {
      QuotientOfProduct(1.0, span);
      SharesRise(span, m - cfg.softExit, span);
    }
  }

  /** How fast a player at `rate` shrinks a drift against a clock at `base`. */
  function Speed(drift: real, rate: real, base: real): real {
    if drift > 0.0 then base - rate else rate - base
  }

  /** The speed at which the controller's corrective rate shrinks the drift. */
  function Strength(cfg: Config, drift: real, base: real): real {
    Product(Adjustment(cfg, Abs(drift)), base)
  }

  lemma {:induction false} SpeedOfAdjustment(drift: real, base: real, adjustment: real)
    ensures Speed(drift, base * (if drift > 0.0 then 1.0 - adjustment else 1.0 + adjustment), base) == adjustment * base
  {
    assert base * (1.0 - adjustment) == base - base * adjustment;
    assert base * (1.0 + adjustment) == base + base * adjustment;
  }

  lemma {:induction false} SpeedOfCorrection(cfg: Config, drift: real, base: real)
    ensures Speed(drift, CorrectiveRate(cfg, drift, base), base) == Strength(cfg, drift, base)
  {
    SpeedOfAdjustment(drift, base, Adjustment(cfg, Abs(drift)));
  }

  lemma {:induction false} StrengthGrows(cfg: Config, small: real, large: real, base: real)
    requires base > 0.0 && Abs(small) <= Abs(large)
    ensures Strength(cfg, small, base) <= Strength(cfg, large, base)
  {
    AdjustmentFacts(cfg, Abs(small), Abs(large));
    ProductMonotone(Adjustment(cfg, Abs(small)), Adjustment(cfg, Abs(large)), base);
  }

  lemma {:induction false} StrengthBounded(cfg: Config, drift: real, base: real, highest: real)
    requires base > 0.0 && highest == Max(cfg.minAdjustment, cfg.maxAdjustment)
    ensures Product(cfg.minAdjustment, base) <= Strength(cfg, drift, base) <= Product(highest, base)
  {
    var adjustment := Adjustment(cfg, Abs(drift));
    AdjustmentFacts(cfg, Abs(drift), Abs(drift));
    ProductMonotone(cfg.minAdjustment, adjustment, base);
    ProductMonotone(adjustment, highest, base);
  }

  /** A corrective rate opposes the drift within the adjustment bounds, and the more the larger the drift. */
  lemma {:induction false} CorrectiveRateOpposes(cfg: Config, drift: real, base: real, larger: real)
    requires base > 0.0 && Abs(drift) <= Abs(larger)
    ensures var speed := Speed(drift, CorrectiveRate(cfg, drift, base), base);
            && Product(cfg.minAdjustment, base) <= speed <= Product(Max(cfg.minAdjustment, cfg.maxAdjustment), base)
            && speed <= Speed(larger, CorrectiveRate(cfg, larger, base), base)
  {
    SpeedOfCorrection(cfg, drift, base);
    SpeedOfCorrection(cfg, larger, base);
    StrengthBounded(cfg, drift, base, Max(cfg.minAdjustment, cfg.maxAdjustment));
    StrengthGrows(cfg, drift, larger, base);
  }

  // ----- open loop: any samples at nondecreasing times -----

  datatype Sample = Sample(drift: real, base: real, now: real)

  function After(cfg: Config, law: Law, s: State, samples: seq<Sample>): State {
    if samples == [] then s
    else
      var n := |samples| - 1;
      Evaluate(cfg, law, After(cfg, law, s, samples[..n]), samples[n].drift, samples[n].base, samples[n].now).0
  }

  function ActionAt(cfg: Config, law: Law, s: State, samples: seq<Sample>, i: nat): Action
    requires i < |samples|
  {
    Evaluate(cfg, law, After(cfg, law, s, samples[..i]), samples[i].drift, samples[i].base, samples[i].now).1
  }

  predicate TimesRise(samples: seq<Sample>) {
    forall i, j :: 0 <= i <= j < |samples| ==> samples[i].now <= samples[j].now
  }

  /** A rate action that leaves the correction active; the other one is the exit to the base rate. */
  predicate CorrectiveAt(cfg: Config, law: Law, s: State, samples: seq<Sample>, i: nat)
    requires i < |samples|
  {
    ActionAt(cfg, law, s, samples, i).Rate? && After(cfg, law, s, samples[..i + 1]).active
  }

  lemma {:induction false} AfterStep(cfg: Config, law: Law, s: State, samples: seq<Sample>, n: nat)
    requires n < |samples|
    ensures After(cfg, law, s, samples[..n + 1])
         == Evaluate(cfg, law, After(cfg, law, s, samples[..n]), samples[n].drift, samples[n].base, samples[n].now).0
  {
    assert samples[..n + 1][..n] == samples[..n];
  }

  /** The controller remembers a time no earlier than any of its past actions. */
  predicate Remembers(s: State, action: Action, now: real) {
    && (action.HardSeek? ==> s.lastSeek.At? && s.lastSeek.t >= now)
    && (action != Idle ==> s.lastRate.At? && s.lastRate.t >= now)
  }

  lemma {:induction false} EvaluationRemembers(cfg: Config, law: Law, s: State, x: Sample, action: Action, now: real)
    requires Remembers(s, action, now) && now <= x.now
    ensures Remembers(Evaluate(cfg, law, s, x.drift, x.base, x.now).0, action, now)
  {}

  lemma {:induction false} ActionIsRemembered(cfg: Config, law: Law, s: State, samples: seq<Sample>, i: nat)
    requires i < |samples|
    ensures Remembers(After(cfg, law, s, samples[..i + 1]), ActionAt(cfg, law, s, samples, i), samples[i].now)
  {
    AfterStep(cfg, law, s, samples, i);
  }

  lemma {:induction false} ActionsRemembered(cfg: Config, law: Law, s: State, samples: seq<Sample>, i: nat, j: nat)
    requires TimesRise(samples) && i < j <= |samples|
    ensures Remembers(After(cfg, law, s, samples[..j]), ActionAt(cfg, law, s, samples, i), samples[i].now)
    decreases j
  {
    if i == j - 1 {
      ActionIsRemembered(cfg, law, s, samples, i);
    } else {
      AfterStep(cfg, law, s, samples, j - 1);
      ActionsRemembered(cfg, law, s, samples, i, j - 1);
      EvaluationRemembers(cfg, law, After(cfg, law, s, samples[..j - 1]), samples[j - 1],
                          ActionAt(cfg, law, s, samples, i), samples[i].now);
    }
  }

  /** Cooldowns over any run: hard seeks are at least the seek cooldown apart, no rate action falls
      inside it, and a corrective rate comes at least the rate cooldown after every earlier action. */
  lemma {:induction false} CooldownsRespected(cfg: Config, law: Law, s: State, samples: seq<Sample>, i: nat, j: nat)
    requires TimesRise(samples) && i < j < |samples|
    ensures var first, second, apart := ActionAt(cfg, law, s, samples, i), ActionAt(cfg, law, s, samples, j),
            samples[j].now - samples[i].now;
            && (first.HardSeek? && second != Idle ==> apart >= cfg.seekCooldown)
            && (first != Idle && CorrectiveAt(cfg, law, s, samples, j) ==> apart >= cfg.rateCooldown)
  {
    ActionsRemembered(cfg, law, s, samples, i, j);
    AfterStep(cfg, law, s, samples, j);
  }

  // ----- what a run answers, from its own history -----

  /** A hard seek of the run lies less than its cooldown before sample `i`. */
  predicate SeekBefore(cfg: Config, law: Law, samples: seq<Sample>, i: nat)
    requires i < |samples|
  {
    exists j :: 0 <= j < i && ActionAt(cfg, law, INITIAL, samples, j).HardSeek?
                && samples[i].now - samples[j].now < cfg.seekCooldown
  }

  /** An action of the run lies less than the rate cooldown before sample `i`. */
  predicate ActionBefore(cfg: Config, law: Law, samples: seq<Sample>, i: nat)
    requires i < |samples|
  {
    exists j :: 0 <= j < i && ActionAt(cfg, law, INITIAL, samples, j) != Idle
                && samples[i].now - samples[j].now < cfg.rateCooldown
  }

  /** An evaluation that changes a remembered time acts at it. */
  lemma {:induction false} LastChange(cfg: Config, law: Law, samples: seq<Sample>, n: nat)
    requires n < |samples|
    ensures var s, after := After(cfg, law, INITIAL, samples[..n]), After(cfg, law, INITIAL, samples[..n + 1]);
            var action := ActionAt(cfg, law, INITIAL, samples, n);
            && (after.lastSeek == s.lastSeek || (action.HardSeek? && after.lastSeek == At(samples[n].now)))
            && (after.lastRate == s.lastRate || (action != Idle && after.lastRate == At(samples[n].now)))
  {
    AfterStep(cfg, law, INITIAL, samples, n);
  }

  /** The times a new controller remembers are those of actions it took. */
  lemma {:induction false} SeekIsRemembered(cfg: Config, law: Law, samples: seq<Sample>, n: nat) returns (j: nat)
    requires n <= |samples| && After(cfg, law, INITIAL, samples[..n]).lastSeek.At?
    ensures j < n && ActionAt(cfg, law, INITIAL, samples, j).HardSeek?
    ensures samples[j].now == After(cfg, law, INITIAL, samples[..n]).lastSeek.t
  {
    j := n - 1;
    LastChange(cfg, law, samples, j);
    if After(cfg, law, INITIAL, samples[..n]).lastSeek == After(cfg, law, INITIAL, samples[..j]).lastSeek {
      j := SeekIsRemembered(cfg, law, samples, j);
    }
  }

  lemma {:induction false} RateIsRemembered(cfg: Config, law: Law, samples: seq<Sample>, n: nat) returns (j: nat)
    requires n <= |samples| && After(cfg, law, INITIAL, samples[..n]).lastRate.At?
    ensures j < n && ActionAt(cfg, law, INITIAL, samples, j) != Idle
    ensures samples[j].now == After(cfg, law, INITIAL, samples[..n]).lastRate.t
  {
    j := n - 1;
    LastChange(cfg, law, samples, j);
    if After(cfg, law, INITIAL, samples[..n]).lastRate == After(cfg, law, INITIAL, samples[..j]).lastRate {
      j := RateIsRemembered(cfg, law, samples, j);
    }
  }

  lemma {:induction false} CoolingIsHistory(cfg: Config, law: Law, samples: seq<Sample>, i: nat)
    requires TimesRise(samples) && i < |samples|
    ensures var s, now := After(cfg, law, INITIAL, samples[..i]), samples[i].now;
            && (Cooling(now, s.lastSeek, cfg.seekCooldown) <==> SeekBefore(cfg, law, samples, i))
            && (Cooling(now, s.lastRate, cfg.rateCooldown) <==> ActionBefore(cfg, law, samples, i))
  {
    var s := After(cfg, law, INITIAL, samples[..i]);
    if s.lastSeek.At? {
      var j := SeekIsRemembered(cfg, law, samples, i);
    }
    if s.lastRate.At? {
      var j := RateIsRemembered(cfg, law, samples, i);
    }
    forall j | 0 <= j < i
      ensures Remembers(After(cfg, law, INITIAL, samples[..i]), ActionAt(cfg, law, INITIAL, samples, j), samples[j].now)
    {
      ActionsRemembered(cfg, law, INITIAL, samples, j, i);
    }
  }

  /** A new controller seeks exactly when the drift has reached the limit and none of its seeks lies less
      than the cooldown back. */
  lemma {:induction false} SeeksExactly(cfg: Config, law: Law, samples: seq<Sample>, i: nat)
    requires TimesRise(samples) && i < |samples|
    ensures ActionAt(cfg, law, INITIAL, samples, i) == HardSeek <==>
            (samples[i].drift >= cfg.hardSeek || -samples[i].drift >= cfg.hardSeek)
            && !exists j :: 0 <= j < i && ActionAt(cfg, law, INITIAL, samples, j) == HardSeek
                            && samples[i].now - samples[j].now < cfg.seekCooldown
  {
    CoolingIsHistory(cfg, law, samples, i);
    assert SeekBefore(cfg, law, samples, i) <==>
           exists j :: 0 <= j < i && ActionAt(cfg, law, INITIAL, samples, j) == HardSeek
                       && samples[i].now - samples[j].now < cfg.seekCooldown;
  }

  /** Between the limits a drift beyond the exit band that has reached softEnter is answered by the corrective
      rate at once, unless a cooldown of the run's own actions is running, and then by nothing. */
  lemma {:induction false} CorrectsExactly(cfg: Config, law: Law, samples: seq<Sample>, i: nat)
    requires TimesRise(samples) && i < |samples|
    requires var x := samples[i].drift;
             cfg.softEnter <= Abs(x) < cfg.hardSeek && cfg.softExit < Abs(x)
    ensures ActionAt(cfg, law, INITIAL, samples, i)
         == if SeekBefore(cfg, law, samples, i) || ActionBefore(cfg, law, samples, i) then Idle
            else Rate(law(samples[i].drift, samples[i].base))
  {
    CoolingIsHistory(cfg, law, samples, i);
  }

  function SeekCount(cfg: Config, law: Law, s: State, samples: seq<Sample>): nat {
    if samples == [] then 0
    else
      var n := |samples| - 1;
      SeekCount(cfg, law, s, samples[..n]) + if ActionAt(cfg, law, s, samples, n).HardSeek? then 1 else 0
  }

  /** `count` cooldowns end to end. */
  function Spacing(count: nat, cooldown: real): real {
    if count == 0 then 0.0 else Spacing(count - 1, cooldown) + cooldown
  }

  lemma {:induction false} SpacingIsProduct(count: nat, cooldown: real)
    ensures Spacing(count, cooldown) == count as real * cooldown
  {
    if count > 0 {
      SpacingIsProduct(count - 1, cooldown);
      var c := (count - 1) as real;
      assert count as real == c + 1.0;
      assert (c + 1.0) * cooldown == c * cooldown + cooldown;
    }
  }

  lemma {:induction false} SeeksTakeTime(cfg: Config, law: Law, s: State, samples: seq<Sample>)
    requires TimesRise(samples) && SeekCount(cfg, law, s, samples) >= 1
    ensures var last := After(cfg, law, s, samples).lastSeek;
            && last.At? && samples[0].now <= last.t <= samples[|samples| - 1].now
            && Spacing(SeekCount(cfg, law, s, samples) - 1, cfg.seekCooldown) <= last.t - samples[0].now
  {
    var n := |samples| - 1;
    if SeekCount(cfg, law, s, samples[..n]) >= 1 {
      SeeksTakeTime(cfg, law, s, samples[..n]);
    }
  }

  lemma {:induction false} QuotientTimes(a: real, b: real)
    requires b > 0.0
    ensures a / b * b == a
  {}

  lemma {:induction false} ProductPositive(a: real, b: real)
    requires a > 0.0 && b > 0.0
    ensures a * b > 0.0
  {}

  lemma {:induction false} CancelFactor(a: real, b: real, c: real)
    requires c > 0.0 && a * c <= b * c
    ensures a <= b
  {
    if a > b {
      ProductPositive(a - b, c);
      assert false;
    }
  }

  lemma {:induction false} AtMostQuotient(a: real, b: real, c: real)
    requires c > 0.0 && a * c <= b
    ensures a <= b / c
  {
    QuotientTimes(b, c);
    CancelFactor(a, b / c, c);
  }

  lemma {:induction false} SpacedCount(count: nat, duration: real, cooldown: real)
    requires cooldown > 0.0 && duration >= 0.0 && (count >= 1 ==> Spacing(count - 1, cooldown) <= duration)
    ensures count as real <= duration / cooldown + 1.0
  {
    if count >= 1 {
      SpacingIsProduct(count - 1, cooldown);
      AtMostQuotient((count - 1) as real, duration, cooldown);
    } else {
      AtMostQuotient(0.0, duration, cooldown);
    }
  }

  /** Over a run lasting T there are at most T / cooldown + 1 hard seeks. */
  lemma {:induction false} SeekRateIsBounded(cfg: Config, law: Law, s: State, samples: seq<Sample>)
    requires TimesRise(samples) && samples != [] && cfg.seekCooldown > 0.0
    ensures var duration := samples[|samples| - 1].now - samples[0].now;
            SeekCount(cfg, law, s, samples) as real <= duration / cfg.seekCooldown + 1.0
  {
    var count, duration := SeekCount(cfg, law, s, samples), samples[|samples| - 1].now - samples[0].now;
    if count >= 1 {
      SeeksTakeTime(cfg, law, s, samples);
    }
    SpacedCount(count, duration, cfg.seekCooldown);
  }

  // ----- after a reset -----

  /** From `now` on neither instant holds an action back that the other would not. */
  predicate AlikeFrom(now: real, a: Instant, b: Instant, cooldown: real) {
    a == b || ((a.At? ==> a.t + cooldown <= now) && (b.At? ==> b.t + cooldown <= now))
  }

  predicate Alike(cfg: Config, now: real, a: State, b: State) {
    && a.active == b.active
    && AlikeFrom(now, a.lastRate, b.lastRate, cfg.rateCooldown)
    && AlikeFrom(now, a.lastSeek, b.lastSeek, cfg.seekCooldown)
  }

  lemma {:induction false} AlikeStatesAct(cfg: Config, law: Law, now: real, a: State, b: State, x: Sample)
    requires Alike(cfg, now, a, b) && now <= x.now
    ensures var first, second := Evaluate(cfg, law, a, x.drift, x.base, x.now),
            Evaluate(cfg, law, b, x.drift, x.base, x.now);
            first.1 == second.1 && Alike(cfg, now, first.0, second.0)
  {}

  lemma {:induction false} AlikeRuns(cfg: Config, law: Law, now: real, a: State, b: State, samples: seq<Sample>)
    requires Alike(cfg, now, a, b) && forall i :: 0 <= i < |samples| ==> now <= samples[i].now
    ensures Alike(cfg, now, After(cfg, law, a, samples), After(cfg, law, b, samples))
  {
    if samples != [] {
      var n := |samples| - 1;
      AlikeRuns(cfg, law, now, a, b, samples[..n]);
      AlikeStatesAct(cfg, law, now, After(cfg, law, a, samples[..n]), After(cfg, law, b, samples[..n]), samples[n]);
    }
  }

  /** A controller that was reset acts from then on exactly as a new one: no cooldown and no correction of
      its past is left. */
  lemma {:induction false} ResetIsFresh(cfg: Config, law: Law, now: real, samples: seq<Sample>, i: nat)
    requires i < |samples| && forall k :: 0 <= k < |samples| ==> now <= samples[k].now
    ensures ActionAt(cfg, law, ResetState(cfg, now), samples, i) == ActionAt(cfg, law, INITIAL, samples, i)
  {
    AlikeRuns(cfg, law, now, ResetState(cfg, now), INITIAL, samples[..i]);
    AlikeStatesAct(cfg, law, now, After(cfg, law, ResetState(cfg, now), samples[..i]),
      After(cfg, law, INITIAL, samples[..i]), samples[i]);
  }

  /** A correction that is active was started, since the last time none was, by a drift of at least
      softEnter, and has seen neither an exit nor a hard seek since. */
  lemma {:induction false} EpisodeHasEntry(cfg: Config, law: Law, s: State, samples: seq<Sample>) returns (start: nat)
    requires !s.active && After(cfg, law, s, samples).active
    ensures start < |samples| && cfg.softEnter <= Abs(samples[start].drift) < cfg.hardSeek
    ensures !After(cfg, law, s, samples[..start]).active
    ensures forall k :: start < k <= |samples| ==> After(cfg, law, s, samples[..k]).active
  {
    var n := |samples| - 1;
    assert samples[..n + 1] == samples;
    if After(cfg, law, s, samples[..n]).active {
      start := EpisodeHasEntry(cfg, law, s, samples[..n]);
      assert forall k :: 0 <= k <= n ==> samples[..n][..k] == samples[..k];
    } else {
      start := n;
    }
  }

  // ----- closed loop with an ideal player -----

  /** The player's drift against the master clock, and the rate it plays at. */
  datatype Loop = Loop(controller: State, drift: real, rate: real, now: real)

  /** The controller, the base rate and the longest gap between evaluations; `slowest` and `fastest` are
      the speeds at which the bounds of the adjustment shrink a drift. */
  datatype Tuning = Tuning(cfg: Config, law: Law, base: real, longest: real, slowest: real, fastest: real)

  function Moved(l: Loop, base: real, gap: real): real {
    l.drift + Product(l.rate - base, gap)
  }

  function Advance(cfg: Config, base: real, l: Loop, drift: real, now: real, corrective: real): Loop {
    var (controller, action) := Decide(cfg, l.controller, drift, base, now, corrective);
    match action
    case Idle => Loop(controller, drift, l.rate, now)
    case Rate(rate) => Loop(controller, drift, rate, now)
    case HardSeek => Loop(controller, 0.0, base, now)
  }

  /** Drift grows by the difference of the rates until the next evaluation, whose action is applied at
      once; a hard seek removes the drift. */
  function Tick(t: Tuning, l: Loop, gap: real): Loop {
    var drift := Moved(l, t.base, gap);
    Advance(t.cfg, t.base, l, drift, l.now + gap, t.law(drift, t.base))
  }

  function Ticks(t: Tuning, l: Loop, gaps: seq<real>): Loop {
    if gaps == [] then l else Tick(t, Ticks(t, l, gaps[..|gaps| - 1]), gaps[|gaps| - 1])
  }

  predicate GapsWithin(gaps: seq<real>, longest: real) {
    forall i :: 0 <= i < |gaps| ==> 0.0 <= gaps[i] <= longest
  }

  /** The tuning of the controller itself. */
  function ControllerTuning(cfg: Config, base: real, longest: real): Tuning {
    Tuning(cfg, ControllerLaw(cfg), base, longest, Product(cfg.minAdjustment, base), Product(cfg.maxAdjustment, base))
  }

  /** One gap at the strongest correction cannot carry the drift across the exit band. */
  predicate Fits(t: Tuning) {
    && t.base > 0.0 && 0.0 < t.slowest <= t.fastest
    && 0.0 < t.cfg.softExit < t.cfg.softEnter <= t.cfg.hardSeek && t.longest >= 0.0 && t.cfg.rateCooldown >= 0.0
    && t.fastest * t.longest <= t.cfg.softExit
  }

  predicate Correcting(t: Tuning, drift: real, rate: real) {
    t.slowest <= Speed(drift, rate, t.base) <= t.fastest
  }

  ghost predicate Tuned(t: Tuning) {
    Fits(t) && forall drift :: Correcting(t, drift, t.law(drift, t.base))
  }

  /** An episode in progress: active, between the exit band and the seek limit, and the player either
      still at the base rate or correcting within the bounds. */
  predicate Steering(t: Tuning, l: Loop) {
    && l.controller.active && t.cfg.softExit < Abs(l.drift) < t.cfg.hardSeek
    && !Cooling(l.now, l.controller.lastSeek, t.cfg.seekCooldown)
    && (l.rate == t.base || Correcting(t, l.drift, l.rate))
  }

  predicate SameSide(a: real, b: real) {
    (a > 0.0 && b > 0.0) || (a < 0.0 && b < 0.0)
  }

  lemma {:induction false} Shrinks(drift: real, rate: real, base: real, speed: real, gap: real)
    requires speed == Speed(drift, rate, base) && 0.0 <= Product(speed, gap) < Abs(drift)
    ensures Abs(drift + Product(rate - base, gap)) == Abs(drift) - Product(speed, gap)
    ensures SameSide(drift, drift + Product(rate - base, gap))
  {
    var change := rate - base;
    assert speed == change || speed == -change;
    assert -change * gap == -(change * gap);
  }

  /** How far the slowest correction shrinks a drift in `gap`. */
  function Covered(t: Tuning, gap: real): real {
    Product(t.slowest, gap)
  }

  lemma {:induction false} GapShrinks(slowest: real, fastest: real, speed: real, gap: real, longest: real, band: real)
    requires 0.0 < slowest <= fastest && 0.0 <= gap <= longest && fastest * longest <= band
    requires speed == 0.0 || slowest <= speed <= fastest
    ensures 0.0 <= Product(speed, gap) <= band && (speed != 0.0 ==> Product(slowest, gap) <= Product(speed, gap))
  {
    if speed == 0.0 {
      assert speed * gap == 0.0;
      ProductMonotone(0.0, fastest, longest);
    } else {
      ProductMonotone(0.0, slowest, gap);
      ProductMonotone(slowest, speed, gap);
      ProductMonotone(speed, fastest, gap);
      ProductMonotone(gap, longest, fastest);
      assert gap * fastest == fastest * gap && longest * fastest == fastest * longest;
    }
  }

  lemma {:induction false} GapMoves(t: Tuning, l: Loop, gap: real)
    requires Fits(t) && Steering(t, l) && 0.0 <= gap <= t.longest
    ensures Abs(Moved(l, t.base, gap)) <= Abs(l.drift) && SameSide(l.drift, Moved(l, t.base, gap))
    ensures l.rate != t.base ==> Abs(Moved(l, t.base, gap)) <= Abs(l.drift) - Covered(t, gap)
  {
    var speed := Speed(l.drift, l.rate, t.base);
    GapShrinks(t.slowest, t.fastest, speed, gap, t.longest, t.cfg.softExit);
    Shrinks(l.drift, l.rate, t.base, speed, gap);
  }

  lemma {:induction false} LawIsCorrectiveRate(cfg: Config, drift: real, base: real, rate: real)
    requires rate == CorrectiveRate(cfg, drift, base)
    ensures ControllerLaw(cfg)(drift, base) == rate
  {}

  lemma {:induction false} SpeedWithin(drift: real, rate: real, base: real, strength: real, slowest: real,
      fastest: real)
    requires Speed(drift, rate, base) == strength && slowest <= strength <= fastest
    ensures slowest <= Speed(drift, rate, base) <= fastest
  {}

  lemma {:induction false} LawCorrects(cfg: Config, drift: real, base: real) returns (rate: real)
    requires base > 0.0 && cfg.minAdjustment <= cfg.maxAdjustment
    ensures rate == ControllerLaw(cfg)(drift, base)
    ensures Product(cfg.minAdjustment, base) <= Speed(drift, rate, base) <= Product(cfg.maxAdjustment, base)
  {
    rate := CorrectiveRate(cfg, drift, base);
    LawIsCorrectiveRate(cfg, drift, base, rate);
    SpeedOfCorrection(cfg, drift, base);
    StrengthBounded(cfg, drift, base, cfg.maxAdjustment);
    SpeedWithin(drift, rate, base, Strength(cfg, drift, base), Product(cfg.minAdjustment, base),
      Product(cfg.maxAdjustment, base));
  }

  /** The controller's corrective rates keep within the speeds of its tuning, at every drift. */
  lemma {:induction false} ControllerIsTuned(cfg: Config, base: real, longest: real)
    requires 0.0 < cfg.minAdjustment <= cfg.maxAdjustment && Fits(ControllerTuning(cfg, base, longest))
    ensures Tuned(ControllerTuning(cfg, base, longest))
  {
    var t := ControllerTuning(cfg, base, longest);
    forall drift ensures Correcting(t, drift, t.law(drift, t.base)) {
      var rate := LawCorrects(cfg, drift, base);
    }
  }

  /** An evaluation during an episode, once the drift has moved to `drift`. */
  lemma {:induction false} EvaluationSteers(t: Tuning, l: Loop, drift: real, now: real, corrective: real)
    requires 0.0 < t.slowest <= t.fastest
    requires Steering(t, l) && now >= l.now && Abs(drift) <= Abs(l.drift) && SameSide(l.drift, drift)
    requires Correcting(t, drift, corrective)
    ensures var next := Advance(t.cfg, t.base, l, drift, now, corrective);
            && next.now == now && next.drift == drift
            && (if !next.controller.active then Abs(drift) <= t.cfg.softExit && next.rate == t.base
                else
                  && Steering(t, next)
                  && (if Cooling(now, l.controller.lastRate, t.cfg.rateCooldown)
                      then next.controller == l.controller && next.rate == l.rate
                      else next.rate == corrective))
  {}

  /** During an episode the drift never grows and never changes sign; the evaluation either keeps the
      episode going or ends it inside the exit band at the base rate. It never seeks. */
  lemma {:induction false} TickSteers(t: Tuning, l: Loop, gap: real)
    requires Tuned(t) && Steering(t, l) && 0.0 <= gap <= t.longest
    ensures var next := Tick(t, l, gap);
            && next.now == l.now + gap
            && Abs(next.drift) <= Abs(l.drift) && SameSide(l.drift, next.drift)
            && (l.rate != t.base ==> Abs(next.drift) <= Abs(l.drift) - Covered(t, gap))
            && (if !next.controller.active then Abs(next.drift) <= t.cfg.softExit && next.rate == t.base
                else
                  && Steering(t, next)
                  && (if Cooling(next.now, l.controller.lastRate, t.cfg.rateCooldown)
                      then next.controller == l.controller && next.rate == l.rate
                      else next.rate != t.base))
  {
    GapMoves(t, l, gap);
    var drift := Moved(l, t.base, gap);
    EvaluationSteers(t, l, drift, l.now + gap, t.law(drift, t.base));
  }

  /** Correction under way since `since`: the drift has shrunk at least at the slowest speed. */
  predicate Shrinking(t: Tuning, l: Loop, since: real) {
    l.rate != t.base && since <= l.now && Abs(l.drift) <= t.cfg.hardSeek - Covered(t, l.now - since)
  }

  predicate Waiting(t: Tuning, l: Loop, start: real) {
    && l.rate == t.base && l.controller.lastRate.At? && l.controller.lastRate.t <= start
    && Cooling(l.now, l.controller.lastRate, t.cfg.rateCooldown)
  }

  /** Still waiting for the rate cooldown, or shrinking since at most one gap after it ran out. */
  ghost predicate OnSchedule(t: Tuning, l: Loop, start: real) {
    Waiting(t, l, start) || exists since :: since <= start + t.cfg.rateCooldown + t.longest && Shrinking(t, l, since)
  }

  lemma {:induction false} ShrinkingBegins(t: Tuning, l: Loop)
    requires Steering(t, l) && l.rate != t.base
    ensures Shrinking(t, l, l.now)
  {
    assert t.slowest * (l.now - l.now) == 0.0;
  }

  lemma {:induction false} ShrinkingGoesOn(t: Tuning, l: Loop, next: Loop, gap: real, since: real)
    requires Shrinking(t, l, since) && next.now == l.now + gap && next.rate != t.base && gap >= 0.0
    requires Abs(next.drift) <= Abs(l.drift) - Covered(t, gap)
    ensures Shrinking(t, next, since)
  {
    var elapsed := l.now - since;
    assert next.now - since == elapsed + gap;
    assert t.slowest * (elapsed + gap) == t.slowest * elapsed + t.slowest * gap;
  }

  /** The schedule after an evaluation, from what the evaluation did. */
  lemma {:induction false} ScheduleGoesOn(t: Tuning, l: Loop, next: Loop, gap: real, start: real)
    requires Steering(t, next) && OnSchedule(t, l, start) && 0.0 <= gap <= t.longest && next.now == l.now + gap
    requires l.rate != t.base ==> Abs(next.drift) <= Abs(l.drift) - Covered(t, gap)
    requires if Cooling(next.now, l.controller.lastRate, t.cfg.rateCooldown)
             then next.controller == l.controller && next.rate == l.rate else next.rate != t.base
    ensures OnSchedule(t, next, start)
  {
    if Waiting(t, l, start) {
      if next.rate != t.base {
        ShrinkingBegins(t, next);
      }
    } else {
      var since :| since <= start + t.cfg.rateCooldown + t.longest && Shrinking(t, l, since);
      ShrinkingGoesOn(t, l, next, gap, since);
    }
  }

  /** `travel` is a time in which the slowest correction covers the way from the seek limit to the exit band. */
  predicate Travels(t: Tuning, travel: real) {
    travel >= 0.0 && Covered(t, travel) >= t.cfg.hardSeek - t.cfg.softExit
  }

  lemma {:induction false} ShorterTravel(t: Tuning, elapsed: real, travel: real)
    requires t.slowest > 0.0 && Covered(t, elapsed) < Covered(t, travel)
    ensures elapsed < travel
  {
    assert t.slowest * (travel - elapsed) > 0.0;
  }

  /** An episode still running is not older than the cooldown, one gap and the travel time. */
  lemma {:induction false} RunningEpisodeIsYoung(t: Tuning, l: Loop, start: real, travel: real)
    requires 0.0 < t.slowest && t.longest >= 0.0 && Steering(t, l) && OnSchedule(t, l, start) && Travels(t, travel)
    ensures l.now - start < t.cfg.rateCooldown + t.longest + travel
  {
    if !Waiting(t, l, start) {
      var since :| since <= start + t.cfg.rateCooldown + t.longest && Shrinking(t, l, since);
      ShorterTravel(t, l.now - since, travel);
    }
  }

  function Sum(gaps: seq<real>): real {
    if gaps == [] then 0.0 else Sum(gaps[..|gaps| - 1]) + gaps[|gaps| - 1]
  }

  /** An episode at its first evaluation: the player is corrected at once or the cooldown is running. */
  predicate Entering(t: Tuning, l: Loop) {
    Steering(t, l) && (l.rate != t.base || Waiting(t, l, l.now))
  }

  /** The first evaluation of a base-rate player whose drift has reached softEnter enters an episode. */
  lemma {:induction false} EntryEnters(t: Tuning, l: Loop)
    requires Tuned(t) && !l.controller.active && l.rate == t.base
    requires t.cfg.softEnter <= Abs(l.drift) < t.cfg.hardSeek
             && !Cooling(l.now, l.controller.lastSeek, t.cfg.seekCooldown)
    requires l.controller.lastRate.At? ==> l.controller.lastRate.t <= l.now
    ensures Entering(t, Tick(t, l, 0.0)) && Tick(t, l, 0.0).drift == l.drift
  {
    assert Moved(l, t.base, 0.0) == l.drift;
  }

  predicate ActiveThroughout(t: Tuning, l: Loop, gaps: seq<real>) {
    forall k :: 0 <= k <= |gaps| ==> Ticks(t, l, gaps[..k]).controller.active
  }

  lemma {:induction false} EpisodeGoesOn(t: Tuning, l: Loop, gaps: seq<real>)
    requires Tuned(t) && Entering(t, l)
    requires GapsWithin(gaps, t.longest) && ActiveThroughout(t, l, gaps)
    ensures var now := Ticks(t, l, gaps);
            && Steering(t, now) && OnSchedule(t, now, l.now)
            && now.now == l.now + Sum(gaps) && Abs(now.drift) <= Abs(l.drift) && SameSide(l.drift, now.drift)
  {
    if gaps == [] {
      if l.rate != t.base {
        ShrinkingBegins(t, l);
      }
    } else {
      var n := |gaps| - 1;
      assert gaps[..n + 1] == gaps;
      forall k | 0 <= k <= n ensures Ticks(t, l, gaps[..n][..k]).controller.active {
        assert gaps[..n][..k] == gaps[..k];
      }
      EpisodeGoesOn(t, l, gaps[..n]);
      TickSteers(t, Ticks(t, l, gaps[..n]), gaps[n]);
      ScheduleGoesOn(t, Ticks(t, l, gaps[..n]), Ticks(t, l, gaps), gaps[n], l.now);
    }
  }

  function EpisodeLimit(t: Tuning, travel: real): real {
    t.cfg.rateCooldown + 2.0 * t.longest + travel
  }

  lemma {:induction false} PrefixRuns(t: Tuning, l: Loop, gaps: seq<real>, k: nat, travel: real)
    requires Tuned(t) && Entering(t, l) && GapsWithin(gaps, t.longest)
    requires Travels(t, travel) && k <= |gaps|
    requires forall j :: 0 <= j <= k ==> Ticks(t, l, gaps[..j]).controller.active
    ensures var now := Ticks(t, l, gaps[..k]);
            && Steering(t, now) && Abs(now.drift) <= Abs(l.drift) && SameSide(l.drift, now.drift)
            && Sum(gaps[..k]) < EpisodeLimit(t, travel) - t.longest
  {
    forall j | 0 <= j <= k ensures Ticks(t, l, gaps[..k][..j]).controller.active {
      assert gaps[..k][..j] == gaps[..j];
    }
    EpisodeGoesOn(t, l, gaps[..k]);
    RunningEpisodeIsYoung(t, Ticks(t, l, gaps[..k]), l.now, travel);
  }

  lemma {:induction false} FirstInactive(t: Tuning, l: Loop, gaps: seq<real>) returns (k: nat)
    requires l.controller.active
    ensures 0 < k <= |gaps| + 1
    ensures forall j :: 0 <= j < k ==> Ticks(t, l, gaps[..j]).controller.active
    ensures k <= |gaps| ==> !Ticks(t, l, gaps[..k]).controller.active
  {
    k := 1;
    assert gaps[..0] == [];
    while k <= |gaps| && Ticks(t, l, gaps[..k]).controller.active
      invariant 0 < k <= |gaps| + 1
      invariant forall j :: 0 <= j < k ==> Ticks(t, l, gaps[..j]).controller.active
    {
      k := k + 1;
    }
  }

  /** Convergence: evaluated at most `t.longest` apart for long enough, a correction ends in time, inside
      the exit band, at the base rate; until then the drift shrinks towards zero without crossing it. */
  lemma {:induction false} CorrectionEnds(t: Tuning, l: Loop, gaps: seq<real>, travel: real) returns (k: nat)
    requires Tuned(t) && Entering(t, l) && GapsWithin(gaps, t.longest)
    requires Travels(t, travel) && Sum(gaps) >= EpisodeLimit(t, travel)
    ensures 0 < k <= |gaps| && Sum(gaps[..k]) < EpisodeLimit(t, travel)
    ensures forall j :: 0 <= j < k ==>
              var now := Ticks(t, l, gaps[..j]);
              now.controller.active && Abs(now.drift) <= Abs(l.drift) && SameSide(l.drift, now.drift)
    ensures var done := Ticks(t, l, gaps[..k]);
            && !done.controller.active && done.rate == t.base
            && Abs(done.drift) <= t.cfg.softExit && SameSide(l.drift, done.drift)
  {
    k := FirstInactive(t, l, gaps);
    PrefixRuns(t, l, gaps, k - 1, travel);
    assert gaps[..|gaps|] == gaps;
    assert gaps[..k][..k - 1] == gaps[..k - 1];
    forall j | 0 <= j < k
      ensures var now := Ticks(t, l, gaps[..j]);
              now.controller.active && Abs(now.drift) <= Abs(l.drift) && SameSide(l.drift, now.drift)
    {
      PrefixRuns(t, l, gaps, j, travel);
    }
    TickSteers(t, Ticks(t, l, gaps[..k - 1]), gaps[k - 1]);
  }

  /** Each evaluation of an episode shrinks the drift or keeps it. */
  lemma {:induction false} DriftNeverGrows(t: Tuning, l: Loop, gaps: seq<real>, j: nat)
    requires Tuned(t) && Entering(t, l) && GapsWithin(gaps, t.longest) && j < |gaps|
    requires forall i :: 0 <= i <= j ==> Ticks(t, l, gaps[..i]).controller.active
    ensures var now, next := Ticks(t, l, gaps[..j]), Ticks(t, l, gaps[..j + 1]);
            Abs(next.drift) <= Abs(now.drift) && SameSide(now.drift, next.drift)
  {
    assert gaps[..j + 1][..j] == gaps[..j];
    forall i | 0 <= i <= j ensures Ticks(t, l, gaps[..j][..i]).controller.active {
      assert gaps[..j][..i] == gaps[..i];
    }
    EpisodeGoesOn(t, l, gaps[..j]);
    TickSteers(t, Ticks(t, l, gaps[..j]), gaps[j]);
  }

  /** The slowest correction's way from the seek limit to the exit band. */
  function TravelTime(t: Tuning): real
    requires t.slowest > 0.0
  {
    (t.cfg.hardSeek - t.cfg.softExit) / t.slowest
  }

  lemma {:induction false} TravelTimeTravels(t: Tuning)
    requires Fits(t)
    ensures Travels(t, TravelTime(t))
  {
    QuotientMonotone(0.0, t.cfg.hardSeek - t.cfg.softExit, t.slowest);
    QuotientTimes(t.cfg.hardSeek - t.cfg.softExit, t.slowest);
    assert t.slowest * TravelTime(t) == TravelTime(t) * t.slowest;
  }

  /** A player at the base rate that has just drifted to softEnter or more. */
  predicate Drifted(t: Tuning, l: Loop) {
    && !l.controller.active && l.rate == t.base && !Cooling(l.now, l.controller.lastSeek, t.cfg.seekCooldown)
    && (l.controller.lastRate.At? ==> l.controller.lastRate.t <= l.now)
    && t.cfg.softEnter <= Abs(l.drift) < t.cfg.hardSeek
  }

  /** The correction runs for `k` gaps, never letting the drift grow or change sign, and then ends inside
      the exit band at the base rate. */
  predicate Corrected(t: Tuning, l: Loop, gaps: seq<real>, k: nat)
    requires k <= |gaps|
  {
    var entered, done := Tick(t, l, 0.0), Ticks(t, Tick(t, l, 0.0), gaps[..k]);
    && (forall j :: 0 <= j < k ==>
          var now := Ticks(t, entered, gaps[..j]);
          now.controller.active && Abs(now.drift) <= Abs(l.drift) && SameSide(l.drift, now.drift))
    && !done.controller.active && done.rate == t.base && Abs(done.drift) <= t.cfg.softExit
    && SameSide(l.drift, done.drift)
  }

  /** A drifted player is back in time: within the rate cooldown, two gaps and the travel time. With
      ControllerIsTuned this holds of the controller. */
  lemma {:induction false} DriftIsCorrected(t: Tuning, l: Loop, gaps: seq<real>) returns (k: nat)
    requires Tuned(t) && Drifted(t, l) && GapsWithin(gaps, t.longest)
    requires Sum(gaps) >= t.cfg.rateCooldown + 2.0 * t.longest + TravelTime(t)
    ensures 0 < k <= |gaps| && Sum(gaps[..k]) < t.cfg.rateCooldown + 2.0 * t.longest + TravelTime(t)
    ensures Corrected(t, l, gaps, k)
  {
    EntryEnters(t, l);
    TravelTimeTravels(t);
    k := CorrectionEnds(t, Tick(t, l, 0.0), gaps, TravelTime(t));
  }

  // ----- a player at or beyond the seek limit -----

  lemma {:induction false} ZeroTimes(a: real, b: real)
    requires a == 0.0
    ensures a * b == 0.0 && Product(a, b) == 0.0
  {
    assert 0.0 * b == 0.0;
  }

  /** A player at the base rate keeps its drift until the seek cooldown has run out. */
  lemma {:induction false} CoolingWaits(t: Tuning, l: Loop, gap: real)
    requires l.rate == t.base && Abs(l.drift) >= t.cfg.hardSeek
    requires l.controller.lastSeek.At? && l.now + gap - l.controller.lastSeek.t < t.cfg.seekCooldown
    ensures Tick(t, l, gap) == l.(now := l.now + gap)
  {
    ZeroTimes(l.rate - t.base, gap);
  }

  /** The evaluation that finds the drift at or beyond the limit, past the cooldown, removes it. */
  lemma {:induction false} SeekRemovesDrift(t: Tuning, l: Loop, gap: real)
    requires var drift := l.drift + (l.rate - t.base) * gap; drift >= t.cfg.hardSeek || -drift >= t.cfg.hardSeek
    requires l.controller.lastSeek.At? ==> l.now + gap - l.controller.lastSeek.t >= t.cfg.seekCooldown
    ensures var next := Tick(t, l, gap);
            && next.drift == 0.0 && next.rate == t.base && next.now == l.now + gap && !next.controller.active
  {
    assert Product(l.rate - t.base, gap) == (l.rate - t.base) * gap;
  }

  lemma {:induction false} CoolingRun(t: Tuning, l: Loop, gaps: seq<real>)
    requires l.rate == t.base && Abs(l.drift) >= t.cfg.hardSeek && l.controller.lastSeek.At?
    requires forall k :: 0 < k <= |gaps| ==> l.now + Sum(gaps[..k]) - l.controller.lastSeek.t < t.cfg.seekCooldown
    ensures Ticks(t, l, gaps) == l.(now := l.now + Sum(gaps))
  {
    if gaps != [] {
      var n := |gaps| - 1;
      assert gaps[..n + 1] == gaps && forall k :: 0 < k <= n ==> gaps[..n][..k] == gaps[..k];
      CoolingRun(t, l, gaps[..n]);
      CoolingWaits(t, l.(now := l.now + Sum(gaps[..n])), gaps[n]);
    }
  }

  /** A player at the base rate that has drifted to the limit or beyond is put in time by its first
      evaluation past the seek cooldown; until then nothing changes. */
  lemma {:induction false} LargeDriftIsRemoved(t: Tuning, l: Loop, gaps: seq<real>)
    requires l.rate == t.base && (l.drift >= t.cfg.hardSeek || -l.drift >= t.cfg.hardSeek) && gaps != []
    requires l.controller.lastSeek.At? ==>
               && l.now + Sum(gaps) - l.controller.lastSeek.t >= t.cfg.seekCooldown
               && forall k :: 0 < k < |gaps| ==> l.now + Sum(gaps[..k]) - l.controller.lastSeek.t < t.cfg.seekCooldown
    requires l.controller.lastSeek.Never? ==> |gaps| == 1
    ensures forall k :: 0 <= k < |gaps| ==> Ticks(t, l, gaps[..k]).drift == l.drift
    ensures var done := Ticks(t, l, gaps); done.drift == 0.0 && done.rate == t.base && !done.controller.active
  {
    var n := |gaps| - 1;
    forall k | 0 <= k <= n ensures Ticks(t, l, gaps[..k]) == l.(now := l.now + Sum(gaps[..k])) {
      if k == 0 {
        assert gaps[..0] == [];
      } else {
        assert forall j :: 0 < j <= k ==> gaps[..k][..j] == gaps[..j];
        CoolingRun(t, l, gaps[..k]);
      }
    }
    assert gaps[..n + 1] == gaps;
    var last := Ticks(t, l, gaps[..n]);
    ZeroTimes(last.rate - t.base, gaps[n]);
    SeekRemovesDrift(t, last, gaps[n]);
  }
}
