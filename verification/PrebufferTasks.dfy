/** The production prebuffer tasks: promotion of finalized fragments and their delayed collection, run by
    a worker while triggers come and change. Times are in milliseconds. */
module PrebufferTasks {
  import opened Wrappers

  datatype Span = Span(start: int, end: int)

  /** A trigger wants everything from `start` to `end`, or on without end while it is open. */
  datatype Trigger = Trigger(start: int, end: Option<int>, cancelled: bool)

  const PREBUFFER := "/prebuffer/"

  predicate Inside(path: string) {
    PREBUFFER <= path
  }

  const RETRIES: nat := 3

  const RETRY_DELAY: nat := 30_000

  /** The phases of one collection task: waiting; having read the triggers and the target; free to delete;
      over. `seen` is the triggers it read. */
  datatype Phase = Due(at: int) | Asked(needed: bool, target: nat, seen: seq<Trigger>) | Cleared(seen: seq<Trigger>)
      | Done

  datatype Collection = Collection(path: string, retries: nat, phase: Phase)

  /** The worker's world: fragments ever finalized and those still in the prebuffer, the triggers, the
      camera's local target, copies published on targets and catalogued as available, the collection tasks,
      and for each deleted path the triggers its collection had read. */
  datatype Store = Store(
    clock: int, finalized: map<string, Span>, buffer: set<string>, triggers: seq<Trigger>, target: nat,
    published: set<(nat, string)>, available: set<(nat, string)>, collections: seq<Collection>,
    removed: map<string, seq<Trigger>>)

  predicate Needs(t: Trigger, span: Span) {
    !t.cancelled && t.start < span.end && (t.end.Some? ==> t.end.value > span.start)
  }

  predicate Needed(triggers: seq<Trigger>, span: Span) {
    exists i :: 0 <= i < |triggers| && Needs(triggers[i], span)
  }

  predicate Saved(available: set<(nat, string)>, path: string) {
    exists entry :: entry in available && entry.1 == path
  }

  datatype Step =
    | Tick(elapsed: nat)
    | Finalize(path: string, span: Span)
    | NewTrigger(trigger: Trigger)
    | EventEnd(index: nat, end: int)
    | Stop(index: nat, end: int)
    | Cancel(index: nat)
    | Retarget(target: nat)
    | Publish(path: string)
    | Commit(entry: (nat, string))
    | Collect(task: nat)

  /** The provider reports an event's end: the planned end is set, or moved later, and the trigger is
      completed, also one that was cancelled. */
  function Ended(t: Trigger, end: int): Trigger {
    Trigger(t.start, if t.end.Some? && end <= t.end.value then t.end else Some(end), false)
  }

  /** An open manual trigger is stopped; a cancelled one cannot be. */
  function Stopped(t: Trigger, end: int): Trigger {
    if t.cancelled || t.end.Some? then t else t.(end := Some(end))
  }

  /** The next phase of a collection: it reads the triggers and the target in one transaction and the
      catalog in another, raises for a needed fragment that is not available (and is retried later), and
      deletes last, never outside the prebuffer. */
  function Collected(s: Store, c: Collection, span: Span): (Store, Collection) {
    match c.phase
    case Due(at) =>
      if s.clock < at then (s, c)
      else if c.path !in s.buffer then (s, c.(phase := Done))
      else (s, c.(phase := Asked(Needed(s.triggers, span), s.target, s.triggers)))
    case Asked(needed, target, seen) =>
      if !needed || (target, c.path) in s.available then (s, c.(phase := Cleared(seen)))
      else if c.retries == 0 then (s, c.(phase := Done))
      else (s, Collection(c.path, c.retries - 1, Due(s.clock + RETRY_DELAY)))
    case Cleared(seen) =>
      if Inside(c.path) then
        (s.(buffer := s.buffer - {c.path}, removed := s.removed[c.path := seen]), c.(phase := Done))
      else (s, c.(phase := Done))
    case Done => (s, c)
  }

  /** `delay` is how long after its hook the collection of a fragment is scheduled. */
  function Next(s: Store, step: Step, delay: nat): Store {
    match step
    case Tick(elapsed) => s.(clock := s.clock + elapsed)
    case Finalize(path, span) =>
      if !(span.start < span.end <= s.clock) || (path in s.finalized && s.finalized[path] != span) then s
      else if path in s.finalized
        then s.(collections := s.collections + [Collection(path, RETRIES, Due(s.clock + delay))])
      else s.(finalized := s.finalized[path := span], buffer := s.buffer + {path},
              collections := s.collections + [Collection(path, RETRIES, Due(s.clock + delay))])
    case NewTrigger(t) => s.(triggers := s.triggers + [t])
    case EventEnd(i, end) => if i < |s.triggers| then s.(triggers := s.triggers[i := Ended(s.triggers[i], end)]) else s
    case Stop(i, end) => if i < |s.triggers| then s.(triggers := s.triggers[i := Stopped(s.triggers[i], end)]) else s
    case Cancel(i) => if i < |s.triggers| then s.(triggers := s.triggers[i := s.triggers[i].(cancelled := true)]) else s
    case Retarget(target) => s.(target := target)
    case Publish(path) =>
      if path in s.finalized && Inside(path) && Needed(s.triggers, s.finalized[path])
         && (path in s.buffer || (s.target, path) in s.published)
      then s.(published := s.published + {(s.target, path)}) else s
    case Commit(entry) => if entry in s.published then s.(available := s.available + {entry}) else s
    case Collect(i) =>
      if i < |s.collections| && s.collections[i].path in s.finalized then
        var (after, task) := Collected(s, s.collections[i], s.finalized[s.collections[i].path]);
        after.(collections := s.collections[i := task])
      else s
  }

  function Run(s: Store, steps: seq<Step>, delay: nat): Store {
    if steps == [] then s else Next(Run(s, steps[..|steps| - 1], delay), steps[|steps| - 1], delay)
  }

  const EMPTY := Store(0, map[], {}, [], 0, {}, {}, [], map[])

  // ----- the guard -----

  /** What a collection has read allows deleting the fragment. */
  predicate Justified(s: Store, seen: seq<Trigger>, path: string, span: Span) {
    Needed(seen, span) ==> Saved(s.available, path)
  }

  predicate TaskGuarded(s: Store, c: Collection) {
    && c.path in s.finalized
    && (c.phase.Asked? ==> c.phase.needed == Needed(c.phase.seen, s.finalized[c.path]))
    && (c.phase.Cleared? ==> Justified(s, c.phase.seen, c.path, s.finalized[c.path]))
  }

  predicate PathGuarded(s: Store, path: string)
    requires path in s.finalized
  {
    path in s.buffer || (path in s.removed && Justified(s, s.removed[path], path, s.finalized[path]))
  }

  predicate Guarded(s: Store) {
    && (forall i :: 0 <= i < |s.collections| ==> TaskGuarded(s, s.collections[i]))
    && (forall path :: path in s.finalized ==> PathGuarded(s, path))
  }

  lemma {:induction false} SavedStays(before: set<(nat, string)>, after: set<(nat, string)>, path: string)
    requires before <= after && Saved(before, path)
    ensures Saved(after, path)
  {
    var entry :| entry in before && entry.1 == path;
    assert entry in after;
  }

  /** Steps that keep the fragments and lose no catalogued copy keep the guard. */
  lemma {:induction false} GuardStays(s: Store, t: Store)
    requires Guarded(s) && t.collections == s.collections && t.finalized == s.finalized && t.buffer == s.buffer
    requires t.removed == s.removed && s.available <= t.available
    ensures Guarded(t)
  {
    forall i | 0 <= i < |t.collections| ensures TaskGuarded(t, t.collections[i]) {
      var c := t.collections[i];
      assert TaskGuarded(s, c);
      if Saved(s.available, c.path) {
        SavedStays(s.available, t.available, c.path);
      }
    }
    forall path | path in t.finalized ensures PathGuarded(t, path) {
      assert PathGuarded(s, path);
      if Saved(s.available, path) {
        SavedStays(s.available, t.available, path);
      }
    }
  }

  lemma {:induction false} FinalizeKeepsGuard(s: Store, path: string, span: Span, delay: nat)
    requires Guarded(s)
    ensures Guarded(Next(s, Finalize(path, span), delay))
  {
    var t := Next(s, Finalize(path, span), delay);
    forall i | 0 <= i < |t.collections| ensures TaskGuarded(t, t.collections[i]) {
      if i < |s.collections| {
        assert TaskGuarded(s, s.collections[i]);
      }
    }
    forall other | other in t.finalized ensures PathGuarded(t, other) {
      if other in s.finalized {
        assert PathGuarded(s, other);
      }
    }
  }

  lemma {:induction false} CollectedIsGuarded(s: Store, c: Collection)
    requires TaskGuarded(s, c)
    ensures var (after, task) := Collected(s, c, s.finalized[c.path]);
            && TaskGuarded(s, task) && task.path == c.path
            && (after != s ==> c.phase.Cleared? && Justified(s, c.phase.seen, c.path, s.finalized[c.path]))
  {
    if c.phase.Asked? && (c.phase.target, c.path) in s.available {
      assert Saved(s.available, c.path);
    }
  }

  lemma {:induction false} CollectKeepsGuard(s: Store, i: nat, delay: nat)
    requires Guarded(s)
    ensures Guarded(Next(s, Collect(i), delay))
  {
    if i < |s.collections| {
      var c, t := s.collections[i], Next(s, Collect(i), delay);
      assert TaskGuarded(s, c);
      CollectedIsGuarded(s, c);
      forall k | 0 <= k < |t.collections| ensures TaskGuarded(t, t.collections[k]) {
        assert TaskGuarded(s, s.collections[k]);
      }
      forall path | path in t.finalized ensures PathGuarded(t, path) {
        assert PathGuarded(s, path);
      }
    }
  }

  lemma {:induction false} NextKeepsGuard(s: Store, step: Step, delay: nat)
    requires Guarded(s)
    ensures Guarded(Next(s, step, delay))
  {
    match step
    case Finalize(path, span) => FinalizeKeepsGuard(s, path, span, delay);
    case Collect(i) => CollectKeepsGuard(s, i, delay);
    case _ => GuardStays(s, Next(s, step, delay));
  }

  /** In every interleaving of hooks, triggers, promotions and collections, a fragment leaves the prebuffer
      only if no trigger its collection had read needs it, or a catalogued copy of it is available. */
  lemma {:induction false} CollectionIsGuarded(steps: seq<Step>, delay: nat)
    ensures Guarded(Run(EMPTY, steps, delay))
  {
    if steps != [] {
      CollectionIsGuarded(steps[..|steps| - 1], delay);
      NextKeepsGuard(Run(EMPTY, steps[..|steps| - 1], delay), steps[|steps| - 1], delay);
    }
  }

  // ----- the delay -----

  /** Where the footage begins that a trigger comes to want when its event ends: at its start when it is
      revived, at its former end when it is extended. */
  function WantedFrom(t: Trigger, end: int): Option<int> {
    if t.cancelled then Some(t.start) else if t.end.Some? && end > t.end.value then t.end else None
  }

  /** A step that makes a trigger want footage older than `reach` is not prompt. */
  predicate Prompt(s: Store, step: Step, reach: nat) {
    match step
    case NewTrigger(t) => t.start >= s.clock - reach
    case EventEnd(i, end) =>
      i < |s.triggers| ==> var from := WantedFrom(s.triggers[i], end); from.Some? ==> from.value >= s.clock - reach
    case _ => true
  }

  predicate PromptRun(s: Store, steps: seq<Step>, delay: nat, reach: nat) {
    steps == [] || (PromptRun(s, steps[..|steps| - 1], delay, reach)
                    && Prompt(Run(s, steps[..|steps| - 1], delay), steps[|steps| - 1], reach))
  }

  /** The triggers read at the time already had every need of the fragment there is now. */
  predicate Settled(s: Store, seen: seq<Trigger>, span: Span, delay: nat) {
    && span.start < span.end && s.clock >= span.end + delay
    && forall i :: 0 <= i < |s.triggers| && Needs(s.triggers[i], span) ==> i < |seen| && Needs(seen[i], span)
  }

  predicate TaskSettled(s: Store, c: Collection, delay: nat) {
    c.path in s.finalized && s.finalized[c.path].start < s.finalized[c.path].end
    && match c.phase
       case Due(at) => at >= s.finalized[c.path].end + delay
       case Asked(_, _, seen) => Settled(s, seen, s.finalized[c.path], delay)
       case Cleared(seen) => Settled(s, seen, s.finalized[c.path], delay)
       case Done => true
  }

  predicate AllSettled(s: Store, delay: nat) {
    && (forall i :: 0 <= i < |s.collections| ==> TaskSettled(s, s.collections[i], delay))
    && (forall path :: path in s.removed ==>
       path in s.finalized && Settled(s, s.removed[path], s.finalized[path], delay))
  }

  /** A prompt step makes no fragment needed that was due for collection. */
  lemma {:induction false} PromptKeepsSettled(s: Store, step: Step, seen: seq<Trigger>, span: Span, delay: nat,
      reach: nat)
    requires Settled(s, seen, span, delay) && Prompt(s, step, reach) && reach <= delay
    ensures Settled(Next(s, step, delay), seen, span, delay)
  {
    match step
    case EventEnd(i, end) =>
      var t := Next(s, step, delay);
      forall k | 0 <= k < |t.triggers| && Needs(t.triggers[k], span) ensures k < |seen| && Needs(seen[k], span) {
        assert Needs(s.triggers[k], span);
      }
    case Stop(i, end) =>
      var t := Next(s, step, delay);
      forall k | 0 <= k < |t.triggers| && Needs(t.triggers[k], span) ensures k < |seen| && Needs(seen[k], span) {
        assert Needs(s.triggers[k], span);
      }
    case Cancel(i) =>
      var t := Next(s, step, delay);
      forall k | 0 <= k < |t.triggers| && Needs(t.triggers[k], span) ensures k < |seen| && Needs(seen[k], span) {
        assert Needs(s.triggers[k], span);
      }
    case _ =>
  }

  lemma {:induction false} CollectedIsSettled(s: Store, c: Collection, delay: nat)
    requires TaskSettled(s, c, delay)
    ensures var (after, task) := Collected(s, c, s.finalized[c.path]); TaskSettled(after, task, delay)
    ensures c.phase.Cleared? ==> Settled(s, c.phase.seen, s.finalized[c.path], delay)
  {}

  lemma {:induction false} TaskStaysSettled(s: Store, step: Step, k: nat, delay: nat, reach: nat)
    requires AllSettled(s, delay) && Prompt(s, step, reach) && reach <= delay && k < |s.collections|
    ensures var t := Next(s, step, delay); k < |t.collections| && TaskSettled(t, t.collections[k], delay)
  {
    var c := s.collections[k];
    assert TaskSettled(s, c, delay);
    if c.phase.Asked? || c.phase.Cleared? {
      PromptKeepsSettled(s, step, c.phase.seen, s.finalized[c.path], delay, reach);
    }
    if step.Collect? && step.task == k {
      CollectedIsSettled(s, c, delay);
    }
  }

  lemma {:induction false} RemovedStaysSettled(s: Store, step: Step, path: string, delay: nat, reach: nat)
    requires AllSettled(s, delay) && Prompt(s, step, reach) && reach <= delay && path in Next(s, step, delay).removed
    ensures var t := Next(s, step, delay); path in t.finalized && Settled(t, t.removed[path], t.finalized[path], delay)
  {
    if step.Collect? && step.task < |s.collections| {
      var c := s.collections[step.task];
      assert TaskSettled(s, c, delay);
      CollectedIsSettled(s, c, delay);
    } else {
      PromptKeepsSettled(s, step, s.removed[path], s.finalized[path], delay, reach);
    }
  }

  lemma {:induction false} NextKeepsSettled(s: Store, step: Step, delay: nat, reach: nat)
    requires AllSettled(s, delay) && Prompt(s, step, reach) && reach <= delay
    ensures AllSettled(Next(s, step, delay), delay)
  {
    var t := Next(s, step, delay);
    forall k | 0 <= k < |t.collections| ensures TaskSettled(t, t.collections[k], delay) {
      if k < |s.collections| {
        TaskStaysSettled(s, step, k, delay, reach);
      }
    }
    forall path | path in t.removed
      ensures path in t.finalized && Settled(t, t.removed[path], t.finalized[path], delay)
    {
      RemovedStaysSettled(s, step, path, delay, reach);
    }
  }

  lemma {:induction false} RunStaysSettled(steps: seq<Step>, delay: nat, reach: nat)
    requires PromptRun(EMPTY, steps, delay, reach) && reach <= delay
    ensures AllSettled(Run(EMPTY, steps, delay), delay)
  {
    if steps != [] {
      RunStaysSettled(steps[..|steps| - 1], delay, reach);
      NextKeepsSettled(Run(EMPTY, steps[..|steps| - 1], delay), steps[|steps| - 1], delay, reach);
    }
  }

  /** Some live trigger begins before the fragment ends and, unless it is open, ends after it begins. */
  predicate Wanted(triggers: seq<Trigger>, span: Span) {
    exists i :: && 0 <= i < |triggers| && !triggers[i].cancelled && triggers[i].start < span.end
                && (triggers[i].end == None || span.start < triggers[i].end.value)
  }

  /** When no trigger reaches back further than the collection delay, then in every reachable state every
      finalized fragment that any trigger needs is in the prebuffer or catalogued as available. */
  lemma {:induction false} NothingNeededIsLost(steps: seq<Step>, delay: nat, reach: nat, path: string)
    requires PromptRun(EMPTY, steps, delay, reach) && reach <= delay
    requires var s := Run(EMPTY, steps, delay); path in s.finalized && Wanted(s.triggers, s.finalized[path])
    ensures var s := Run(EMPTY, steps, delay); path in s.buffer || Saved(s.available, path)
  {
    var s := Run(EMPTY, steps, delay);
    CollectionIsGuarded(steps, delay);
    RunStaysSettled(steps, delay, reach);
    assert PathGuarded(s, path);
    if path !in s.buffer {
      var i :| && 0 <= i < |s.triggers| && !s.triggers[i].cancelled && s.triggers[i].start < s.finalized[path].end
               && (s.triggers[i].end == None || s.finalized[path].start < s.triggers[i].end.value);
      assert Needs(s.triggers[i], s.finalized[path]);
      assert Needs(s.removed[path][i], s.finalized[path]);
    }
  }

  // ----- what is promoted, and when it is collected -----

  lemma {:induction false} NeededIsWanted(triggers: seq<Trigger>, span: Span)
    ensures Needed(triggers, span) <==> Wanted(triggers, span)
  {
    if Needed(triggers, span) {
      var i :| 0 <= i < |triggers| && Needs(triggers[i], span);
      assert triggers[i].start < span.end;
    }
    if Wanted(triggers, span) {
      var i :| && 0 <= i < |triggers| && !triggers[i].cancelled && triggers[i].start < span.end
               && (triggers[i].end == None || span.start < triggers[i].end.value);
      assert Needs(triggers[i], span);
    }
  }

  /** A copy is published by a promotion alone: to the camera's target of that moment, of a finalized
      fragment inside the prebuffer that some trigger then wanted and that was still there, or whose copy
      was. */
  lemma {:induction false} OnlyWantedIsPublished(steps: seq<Step>, delay: nat, entry: (nat, string)) returns (k: nat)
    requires entry in Run(EMPTY, steps, delay).published
    ensures k < |steps| && steps[k] == Publish(entry.1)
    ensures var s := Run(EMPTY, steps[..k], delay);
            && s.target == entry.0 && entry.1 in s.finalized && PREBUFFER <= entry.1
            && Wanted(s.triggers, s.finalized[entry.1]) && (entry.1 in s.buffer || entry in s.published)
  {
    var before := steps[..|steps| - 1];
    if entry in Run(EMPTY, before, delay).published {
      k := OnlyWantedIsPublished(before, delay, entry);
      assert before[..k] == steps[..k];
    } else {
      k := |before|;
      var s := Run(EMPTY, before, delay);
      NeededIsWanted(s.triggers, s.finalized[entry.1]);
    }
  }

  /** Only what was published before is catalogued as available. */
  lemma {:induction false} OnlyPublishedIsAvailable(steps: seq<Step>, delay: nat, entry: (nat, string))
    requires entry in Run(EMPTY, steps, delay).available
    ensures entry in Run(EMPTY, steps, delay).published && Commit(entry) in steps
  {
    var before := steps[..|steps| - 1];
    if entry in Run(EMPTY, before, delay).available {
      OnlyPublishedIsAvailable(before, delay, entry);
      var k :| 0 <= k < |before| && before[k] == Commit(entry);
      assert steps[k] == Commit(entry);
    }
  }

  predicate TaskIsLate(s: Store, c: Collection, delay: nat) {
    c.path in s.finalized ==>
      match c.phase
      case Due(at) => at >= s.finalized[c.path].end + delay
      case Done => true
      case _ => s.clock >= s.finalized[c.path].end + delay
  }

  predicate AllLate(s: Store, delay: nat) {
    && (forall i :: 0 <= i < |s.collections| ==> s.collections[i].path in s.finalized)
    && (forall i :: 0 <= i < |s.collections| ==> TaskIsLate(s, s.collections[i], delay))
    && (forall path :: path in s.finalized && path !in s.buffer ==>
       Inside(path) && s.clock >= s.finalized[path].end + delay)
    && (forall path :: path in s.finalized ==> (path in s.removed <==> path !in s.buffer))
    && (forall path :: path in s.removed ==> path in s.finalized)
    && (forall path :: path in s.buffer ==> path in s.finalized)
  }

  lemma {:induction false} CollectKeepsLate(s: Store, i: nat, delay: nat)
    requires AllLate(s, delay)
    ensures AllLate(Next(s, Collect(i), delay), delay)
  {
    if i < |s.collections| {
      assert TaskIsLate(s, s.collections[i], delay);
      var t := Next(s, Collect(i), delay);
      forall k | 0 <= k < |t.collections|
        ensures t.collections[k].path in t.finalized && TaskIsLate(t, t.collections[k], delay)
      {
        assert TaskIsLate(s, s.collections[k], delay);
      }
    }
  }

  lemma {:induction false} NextKeepsLate(s: Store, step: Step, delay: nat)
    requires AllLate(s, delay)
    ensures AllLate(Next(s, step, delay), delay)
  {
    if step.Collect? {
      CollectKeepsLate(s, step.task, delay);
    } else {
      var t := Next(s, step, delay);
      forall k | 0 <= k < |t.collections|
        ensures t.collections[k].path in t.finalized && TaskIsLate(t, t.collections[k], delay)
      {
        if k < |s.collections| {
          assert TaskIsLate(s, s.collections[k], delay);
        }
      }
    }
  }

  /** In every run, whatever the triggers do, a fragment leaves the prebuffer no earlier than the delay after
      its end, by a collection and for good, and none outside the prebuffer directory is ever deleted. */
  lemma {:induction false} CollectionIsLate(steps: seq<Step>, delay: nat)
    ensures var s := Run(EMPTY, steps, delay);
            forall path :: path in s.finalized && path !in s.buffer ==>
              PREBUFFER <= path && s.clock >= s.finalized[path].end + delay
    ensures var s := Run(EMPTY, steps, delay);
            forall path :: path in s.removed <==> path in s.finalized && path !in s.buffer
    ensures AllLate(Run(EMPTY, steps, delay), delay)
  {
    if steps != [] {
      CollectionIsLate(steps[..|steps| - 1], delay);
      NextKeepsLate(Run(EMPTY, steps[..|steps| - 1], delay), steps[|steps| - 1], delay);
    }
  }

  // ----- what the triggers want -----

  /** Once the end of its event is reported, and unless it is cancelled later, a trigger wants everything
      from its start to that end. */
  lemma {:induction false} ReportedFootageIsWanted(steps: seq<Step>, delay: nat, k: nat, i: nat, end: int)
    requires k < |steps| && steps[k] == EventEnd(i, end) && i < |Run(EMPTY, steps[..k], delay).triggers|
    requires forall j :: k < j < |steps| ==> steps[j] != Cancel(i)
    ensures var before, after := Run(EMPTY, steps[..k], delay).triggers, Run(EMPTY, steps, delay).triggers;
            && i < |after| && after[i].start == before[i].start && !after[i].cancelled
            && after[i].end.Some? && after[i].end.value >= end
    ensures var before, after := Run(EMPTY, steps[..k], delay).triggers, Run(EMPTY, steps, delay).triggers;
            before[i].end.Some? ==> after[i].end.value >= before[i].end.value
  {
    var init := steps[..|steps| - 1];
    if k < |init| {
      assert init[..k] == steps[..k];
      ReportedFootageIsWanted(init, delay, k, i, end);
    } else {
      assert init == steps[..k];
    }
  }

  lemma {:induction false} StopLasts(s: Store, step: Step, delay: nat, i: nat)
    requires i < |s.triggers| && s.triggers[i].end.Some? && !(step.EventEnd? && step.index == i)
    ensures var after := Next(s, step, delay).triggers;
            i < |after| && after[i].end == s.triggers[i].end && after[i].start == s.triggers[i].start
  {}

  /** A live trigger that is open when it is stopped ends there, unless its event's end is reported later. */
  lemma {:induction false} StopIsKept(steps: seq<Step>, delay: nat, k: nat, i: nat, end: int)
    requires k < |steps| && steps[k] == Stop(i, end) && i < |Run(EMPTY, steps[..k], delay).triggers|
    requires var t := Run(EMPTY, steps[..k], delay).triggers[i]; !t.cancelled && t.end == None
    requires forall j :: k < j < |steps| ==> !(steps[j].EventEnd? && steps[j].index == i)
    ensures var before, after := Run(EMPTY, steps[..k], delay).triggers, Run(EMPTY, steps, delay).triggers;
            i < |after| && after[i].end == Some(end) && after[i].start == before[i].start
  {
    var init := steps[..|steps| - 1];
    if k < |init| {
      assert init[..k] == steps[..k];
      StopIsKept(init, delay, k, i, end);
      StopLasts(Run(EMPTY, init, delay), steps[|steps| - 1], delay, i);
    } else {
      assert init == steps[..k];
    }
  }

  /** Every end a trigger has is one that was planned, reported or set by a stop. */
  lemma {:induction false} EndsAreGiven(steps: seq<Step>, delay: nat, i: nat) returns (k: nat)
    requires var triggers := Run(EMPTY, steps, delay).triggers; i < |triggers| && triggers[i].end.Some?
    ensures var end := Run(EMPTY, steps, delay).triggers[i].end;
            k < |steps| && (steps[k] == EventEnd(i, end.value) || steps[k] == Stop(i, end.value)
                            || (steps[k].NewTrigger? && steps[k].trigger.end == end))
  {
    var before := Run(EMPTY, steps[..|steps| - 1], delay).triggers;
    if i < |before| && before[i].end == Run(EMPTY, steps, delay).triggers[i].end {
      k := EndsAreGiven(steps[..|steps| - 1], delay, i);
    } else {
      k := |steps| - 1;
    }
  }

  // ----- when the delay is too short -----

  const LATE := "/prebuffer/late"

  function LateSteps(delay: nat, reach: nat): seq<Step> {
    [Tick(10), Finalize(LATE, Span(0, 10)), Tick(delay), Collect(0), Collect(0), Collect(0),
     NewTrigger(Trigger(10 + delay - reach, None, false))]
  }

  function LateStore(delay: nat, reach: nat, k: nat): Store {
    var span, late := map[LATE := Span(0, 10)], [Trigger(10 + delay - reach, None, false)];
    if k == 0 then EMPTY
    else if k == 1 then EMPTY.(clock := 10)
    else if k == 2 then Store(10, span, {LATE}, [], 0, {}, {}, [Collection(LATE, RETRIES, Due(10 + delay))], map[])
    else if k == 3 then Store(10 + delay, span, {LATE}, [], 0, {}, {}, [Collection(LATE, RETRIES, Due(10 + delay))],
      map[])
    else if k == 4 then Store(10 + delay, span, {LATE}, [], 0, {}, {}, [Collection(LATE, RETRIES, Asked(false, 0, []))],
      map[])
    else if k == 5 then Store(10 + delay, span, {LATE}, [], 0, {}, {}, [Collection(LATE, RETRIES, Cleared([]))], map[])
    else if k == 6 then Store(10 + delay, span, {}, [], 0, {}, {}, [Collection(LATE, RETRIES, Done)], map[LATE := []])
    else Store(10 + delay, span, {}, late, 0, {}, {}, [Collection(LATE, RETRIES, Done)], map[LATE := []])
  }

  lemma {:induction false} LateStoreFollows(delay: nat, reach: nat, k: nat)
    requires k < 7
    ensures Next(LateStore(delay, reach, k), LateSteps(delay, reach)[k], delay) == LateStore(delay, reach, k + 1)
  {
    if k == 1 {
      assert EMPTY.finalized[LATE := Span(0, 10)] == map[LATE := Span(0, 10)];
    } else if k == 5 {
      assert {LATE} - {LATE} == {};
    }
  }

  lemma {:induction false} LateRun(delay: nat, reach: nat, k: nat)
    requires k <= 7
    ensures Run(EMPTY, LateSteps(delay, reach)[..k], delay) == LateStore(delay, reach, k)
    ensures PromptRun(EMPTY, LateSteps(delay, reach)[..k], delay, reach)
  {
    var steps := LateSteps(delay, reach);
    if k > 0 {
      LateRun(delay, reach, k - 1);
      LateStoreFollows(delay, reach, k - 1);
      assert steps[..k][..k - 1] == steps[..k - 1] && steps[..k][k - 1] == steps[k - 1];
    }
  }

  /** The delay is as short as it can be: if triggers may reach back further, a fragment collected on time
      can be needed by the next trigger and be gone. */
  lemma {:induction false} LateNeedIsLost(delay: nat, reach: nat)
    requires delay < reach
    ensures var steps := LateSteps(delay, reach);
            var s := Run(EMPTY, steps, delay);
            && PromptRun(EMPTY, steps, delay, reach)
            && LATE in s.finalized && Wanted(s.triggers, s.finalized[LATE]) && LATE !in s.buffer
            && !Saved(s.available, LATE)
  {
    LateRun(delay, reach, 7);
    assert LateSteps(delay, reach)[..7] == LateSteps(delay, reach);
    assert !LateStore(delay, reach, 7).triggers[0].cancelled;
  }

  // ----- when a cancelled trigger is revived -----

  /** A trigger is cancelled, the fragment it wanted is collected, and then the provider reports the end of
      its event. */
  function RevivalSteps(delay: nat): seq<Step> {
    [NewTrigger(Trigger(0, None, false)), Tick(10), Finalize(LATE, Span(0, 10)), Cancel(0), Tick(delay),
     Collect(0), Collect(0), Collect(0), EventEnd(0, 10)]
  }

  function RevivalStore(delay: nat, k: nat): Store {
    var span, open, cancelled := map[LATE := Span(0, 10)], [Trigger(0, None, false)], [Trigger(0, None, true)];
    var due := Collection(LATE, RETRIES, Due(10 + delay));
    if k == 0 then EMPTY
    else if k == 1 then EMPTY.(triggers := open)
    else if k == 2 then EMPTY.(clock := 10, triggers := open)
    else if k == 3 then Store(10, span, {LATE}, open, 0, {}, {}, [due], map[])
    else if k == 4 then Store(10, span, {LATE}, cancelled, 0, {}, {}, [due], map[])
    else if k == 5 then Store(10 + delay, span, {LATE}, cancelled, 0, {}, {}, [due], map[])
    else if k == 6 then Store(10 + delay, span, {LATE}, cancelled, 0, {}, {},
      [due.(phase := Asked(false, 0, cancelled))], map[])
    else if k == 7 then Store(10 + delay, span, {LATE}, cancelled, 0, {}, {},
      [due.(phase := Cleared(cancelled))], map[])
    else Store(10 + delay, span, {}, if k == 8 then cancelled else [Trigger(0, Some(10), false)], 0, {}, {},
      [due.(phase := Done)], map[LATE := cancelled])
  }

  lemma {:induction false} RevivalStoreFollows(delay: nat, k: nat)
    requires k < 9
    ensures Next(RevivalStore(delay, k), RevivalSteps(delay)[k], delay) == RevivalStore(delay, k + 1)
  {
    if k == 2 {
      assert EMPTY.finalized[LATE := Span(0, 10)] == map[LATE := Span(0, 10)];
    } else if k == 7 {
      assert {LATE} - {LATE} == {};
    }
  }

  lemma {:induction false} RevivalRun(delay: nat, k: nat)
    requires k <= 9
    ensures Run(EMPTY, RevivalSteps(delay)[..k], delay) == RevivalStore(delay, k)
    ensures k <= 8 ==> PromptRun(EMPTY, RevivalSteps(delay)[..k], delay, 0)
  {
    var steps := RevivalSteps(delay);
    if k > 0 {
      RevivalRun(delay, k - 1);
      RevivalStoreFollows(delay, k - 1);
      assert steps[..k][..k - 1] == steps[..k - 1] && steps[..k][k - 1] == steps[k - 1];
    }
  }

  /** No delay covers a revival that is not prompt itself: all steps before it reach back not at all, and
      what the revived trigger wants is gone. */
  lemma {:induction false} RevivedNeedIsLost(delay: nat)
    ensures var steps := RevivalSteps(delay);
            var s := Run(EMPTY, steps, delay);
            && PromptRun(EMPTY, steps[..8], delay, 0)
            && LATE in s.finalized && Wanted(s.triggers, s.finalized[LATE]) && LATE !in s.buffer
            && !Saved(s.available, LATE)
  {
    RevivalRun(delay, 8);
    RevivalRun(delay, 9);
    assert RevivalSteps(delay)[..9] == RevivalSteps(delay);
    assert !RevivalStore(delay, 9).triggers[0].cancelled;
  }

  // ----- the tasks themselves -----

  datatype Promotion = NotNeeded | NoCapacity | Outside | Missing | Mismatch | Promoted

  class PrebufferWorker {
    var clock: int
    var finalized: map<string, Span>
    var buffer: set<string>
    var triggers: seq<Trigger>
    var target: nat
    var published: set<(nat, string)>
    var available: set<(nat, string)>
    var collections: seq<Collection>
    ghost var removed: map<string, seq<Trigger>>

    ghost function View(): Store
      reads this
    {
      Store(clock, finalized, buffer, triggers, target, published, available, collections, removed)
    }

    method OverlapsFragment(span: Span) returns (needed: bool)
      ensures needed == Needed(triggers, span) == Wanted(triggers, span)
    {
      NeededIsWanted(triggers, span);
      for i := 0 to |triggers|
        invariant !Needed(triggers[..i], span)
      {
        if Needs(triggers[i], span) {
          return true;
        }
        assert triggers[..i + 1] == triggers[..i] + [triggers[i]];
      }
      assert triggers[..|triggers|] == triggers;
      return false;
    }

    /** One uninterrupted promotion. `capacity` is the target's write check, and `intact` tells whether the
        copy that is already published, or the one made now, has the fragment's size. */
    method Promote(path: string, capacity: bool, intact: bool) returns (outcome: Promotion)
      requires path in finalized
      modifies this`published, this`available
      ensures outcome.NotNeeded? <==> !Wanted(triggers, finalized[path])
      ensures outcome.NoCapacity? ==> !capacity
      ensures outcome.Outside? ==> !Inside(path)
      ensures outcome.Missing? ==> path !in buffer && (target, path) !in old(published)
      ensures outcome.Mismatch? ==> !intact
      ensures outcome.Promoted? <==> Wanted(triggers, finalized[path]) && capacity && Inside(path) && intact
                                     && (path in buffer || (target, path) in old(published))
      ensures outcome.Promoted? ==> published == old(published) + {(target, path)}
                                    && available == old(available) + {(target, path)}
      ensures View() == if outcome.Promoted? then Next(Next(old(View()), Publish(path), 0), Commit((target, path)), 0)
                        else old(View())
    {
      var needed := OverlapsFragment(finalized[path]);
      if !needed {
        return NotNeeded;
      }
      if !capacity {
        return NoCapacity;
      }
      if !Inside(path) {
        return Outside;
      }
      if (target, path) !in published && path !in buffer {
        return Missing;
      }
      if !intact {
        return Mismatch;
      }
      published := published + {(target, path)};
      available := available + {(target, path)};
      return Promoted;
    }

    /** One uninterrupted collection that is due: three steps of its task, or two when it raises (None);
        false is the refusal to delete outside the prebuffer. */
    method GcPrebufferFragment(task: nat) returns (ok: Option<bool>)
      requires task < |collections| && collections[task].path in finalized
      requires collections[task].phase.Due? && collections[task].phase.at <= clock
      modifies this
      ensures ok == None <==> old(var path := collections[task].path;
                                  path in buffer && Wanted(triggers, finalized[path]) && (target, path) !in available)
      ensures ok == None ==> buffer == old(buffer)
      ensures ok == None ==> collections == old(var c := collections[task];
                                                collections[task := if c.retries == 0 then c.(phase := Done)
                                                  else Collection(c.path, c.retries - 1, Due(clock + 30_000))])
      ensures ok == Some(false) ==> !Inside(old(collections[task].path)) && buffer == old(buffer)
      ensures ok == Some(true) ==> old(collections[task].path) !in buffer
      ensures var twice := Next(Next(old(View()), Collect(task), 0), Collect(task), 0);
              View() == if ok == None then twice else Next(twice, Collect(task), 0)
    {
      var c := collections[task];
      if c.path !in buffer {
        collections := collections[task := c.(phase := Done)];
        return Some(true);
      }
      var needed := OverlapsFragment(finalized[c.path]);
      if needed {
        if (target, c.path) !in available {
          collections := collections[task := if c.retries == 0 then c.(phase := Done)
                                             else Collection(c.path, c.retries - 1, Due(clock + RETRY_DELAY))];
          return None;
        }
      }
      collections := collections[task := c.(phase := Done)];
      if !Inside(c.path) {
        return Some(false);
      }
      buffer := buffer - {c.path};
      removed := removed[c.path := triggers];
      return Some(true);
    }
  }
}
