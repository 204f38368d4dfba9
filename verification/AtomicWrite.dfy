/** Atomic file publication: a unique temporary, written, flushed and renamed over the target, or a
    prepared source flushed and renamed; any number of writers interleaved, with failures and a crash. */
module AtomicWrite {
  import opened Wrappers

  /** Files in the target's directory: the target, and the temporaries and sources beside it. */
  datatype Name = Target | Sibling(tag: nat)

  /** A file's bytes, whether they have reached stable storage, its mode, and its mode when it was last
      flushed. */
  datatype Inode = Inode(data: seq<int>, synced: bool, mode: nat, flushedMode: nat)

  /** One call: Write of a payload through its temporary, or Move of a source that holds the payload. */
  datatype Job =
    | Write(payload: seq<int>, mode: Option<nat>, scratch: Name, created: nat)
    | Move(payload: seq<int>, mode: Option<nat>, scratch: Name)

  /** Where a call is: about to start; holding an open temporary, of which it has written so much; flushed
      but not moded (Write) or moded but not flushed (Move); ready to rename; renamed; over. */
  datatype Phase = Start | Writing(inode: nat, written: nat) | Flushed | Moded | Ready | Renamed | Over

  /** The directory, the files, the calls, and for every file that has been the target which call put it
      there (None for the original). `latest` is the last call to rename. */
  datatype World = World(names: map<Name, nat>, inodes: seq<Inode>, phases: seq<Phase>,
                         past: map<nat, Option<nat>>, latest: Option<nat>, crashed: bool)

  /** What one step of a call does to the directory and the files. */
  datatype Effect = Nothing | Create(inode: Inode) | Change(index: nat, inode: Inode) | Rename | Unlink

  function Flush(inode: Inode): Inode {
    inode.(synced := true, flushedMode := inode.mode)
  }

  function Min(a: nat, b: nat): nat { if a <= b then a else b }

  /** The next step of a call; a chunk of `n` bytes where it is writing. Operations on a path that does not
      exist end the call. */
  function NextStep(job: Job, phase: Phase, names: map<Name, nat>, inodes: seq<Inode>, n: nat): (Effect, Phase) {
    var here := job.scratch in names && names[job.scratch] < |inodes|;
    match phase
    case Start =>
      if job.Write? then
        if job.scratch in names then (Nothing, Over)
        else (Create(Inode([], false, job.created, job.created)), Writing(|inodes|, 0))
      else if job.mode.None? then (Nothing, Moded)
      else if !here then (Nothing, Over)
      else (Change(names[job.scratch], inodes[names[job.scratch]].(mode := job.mode.value)), Moded)
    case Writing(i, k) =>
      if i >= |inodes| then (Nothing, Over)
      else if k < |job.payload| then
        var to := Min(k + n, |job.payload|);
        (Change(i, inodes[i].(data := inodes[i].data + job.payload[k..to])), Writing(i, to))
      else (Change(i, Flush(inodes[i])), Flushed)
    case Flushed =>
      if job.mode.None? then (Nothing, Ready)
      else if !here then (Nothing, Over)
      else (Change(names[job.scratch], inodes[names[job.scratch]].(mode := job.mode.value)), Ready)
    case Moded =>
      if !here then (Nothing, Over)
      else (Change(names[job.scratch], Flush(inodes[names[job.scratch]])), Ready)
    case Ready => if here then (Rename, Renamed) else (Nothing, Over)
    case Renamed => (Nothing, Over)
    case Over => (Nothing, Over)
  }

  /** An exception: a Write that has created its temporary unlinks it. */
  function FailStep(job: Job, phase: Phase): (Effect, Phase) {
    (if job.Write? && !phase.Start? && !phase.Over? then Unlink else Nothing, Over)
  }

  function Apply(s: World, who: nat, scratch: Name, effect: Effect, phase: Phase): World
    requires who < |s.phases|
  {
    var moved := s.(phases := s.phases[who := phase]);
    match effect
    case Nothing => moved
    case Create(inode) => moved.(names := s.names[scratch := |s.inodes|], inodes := s.inodes + [inode])
    case Change(i, inode) => if i < |s.inodes| then moved.(inodes := s.inodes[i := inode]) else moved
    case Rename =>
      if scratch !in s.names then moved
      else moved.(names := s.names[Target := s.names[scratch]] - {scratch},
                  past := s.past[s.names[scratch] := Some(who)], latest := Some(who))
    case Unlink => moved.(names := s.names - {scratch})
  }

  /** A crash ends every call. A file that was not flushed keeps any part of its bytes (`kept` of them), a
      mode set after the flush may be lost (for the files in `lost`), and as the directory itself is never
      flushed the target may fall back to any file it has been. */
  datatype Action = Go(who: nat, n: nat) | Fail(who: nat) | Crash(kept: nat, lost: set<nat>, back: Option<nat>)

  function Cut(inode: Inode, kept: nat, lost: bool): Inode {
    var mode := if lost then inode.flushedMode else inode.mode;
    if inode.synced then inode.(mode := mode) else inode.(data := inode.data[..Min(kept, |inode.data|)], mode := mode)
  }

  function FellBack(s: World, original: Option<Inode>, back: Option<nat>): map<Name, nat> {
    if back.Some? then if back.value in s.past then s.names[Target := back.value] else s.names
    else if original.None? then s.names - {Target} else s.names
  }

  function Next(jobs: seq<Job>, original: Option<Inode>, s: World, action: Action): World {
    match action
    case Go(who, n) =>
      if who < |jobs| && who < |s.phases| then
        var (effect, phase) := NextStep(jobs[who], s.phases[who], s.names, s.inodes, n);
        Apply(s, who, jobs[who].scratch, effect, phase)
      else s
    case Fail(who) =>
      if who < |jobs| && who < |s.phases| then
        var (effect, phase) := FailStep(jobs[who], s.phases[who]);
        Apply(s, who, jobs[who].scratch, effect, phase)
      else s
    case Crash(kept, lost, back) =>
      s.(names := FellBack(s, original, back),
         inodes := seq(|s.inodes|, i requires 0 <= i < |s.inodes| => Cut(s.inodes[i], kept, i in lost)),
         phases := seq(|s.phases|, _ => Over), crashed := true)
  }

  // ----- what every reachable world keeps -----

  predicate ModeSet(job: Job, inode: Inode) {
    job.mode.Some? ==> inode.mode == job.mode.value
  }

  /** A call's file as it must be when it is renamed: the whole payload, flushed, in the requested mode. A
      Write has flushed it in the mode it was created with, a Move in the mode it has. */
  predicate Complete(job: Job, inode: Inode) {
    && inode.data == job.payload && inode.synced && ModeSet(job, inode)
    && inode.flushedMode == (if job.Write? then job.created else inode.mode)
    && (job.Write? && job.mode.None? ==> inode.mode == job.created)
  }

  /** What a crash leaves of it: the whole payload in the requested mode, or for a Write in the mode the
      file was created with. */
  predicate Survives(job: Job, inode: Inode) {
    Complete(job, inode) || (job.Write? && Complete(job.(mode := None), inode))
  }

  predicate Genuine(jobs: seq<Job>, original: Option<Inode>, inode: Inode, writer: Option<nat>, crashed: bool) {
    if writer.None? then original == Some(inode) && inode.synced && inode.flushedMode == inode.mode
    else
      && writer.value < |jobs|
      && if crashed then Survives(jobs[writer.value], inode) else Complete(jobs[writer.value], inode)
  }

  /** The directory names distinct files, and the target alone names a file that has been the target. */
  predicate Sound(jobs: seq<Job>, original: Option<Inode>, s: World) {
    && (forall a :: a in s.names ==> s.names[a] < |s.inodes| && (s.names[a] in s.past <==> a == Target))
    && (forall a, b :: a in s.names && b in s.names && s.names[a] == s.names[b] ==> a == b)
    && (forall i :: i in s.past ==> i < |s.inodes| && Genuine(jobs, original, s.inodes[i], s.past[i], s.crashed))
    && (Target !in s.names ==> original.None?)
  }

  predicate Holds(job: Job, phase: Phase, i: nat, inode: Inode) {
    match phase
    case Start => inode.data == job.payload
    case Writing(at, k) =>
      job.Write? && at == i && k <= |job.payload| && inode.data == job.payload[..k] && inode.mode == job.created
    case Flushed =>
      job.Write? && inode.data == job.payload && inode.synced && inode.mode == inode.flushedMode == job.created
    case Moded => job.Move? && inode.data == job.payload && ModeSet(job, inode)
    case Ready => Complete(job, inode)
    case _ => true
  }

  /** What a call's own file holds in each phase. */
  predicate Progress(job: Job, phase: Phase, names: map<Name, nat>, inodes: seq<Inode>) {
    if phase.Start? && job.Write? then job.scratch !in names
    else if phase.Renamed? then job.scratch !in names
    else if phase.Over? then job.Write? ==> job.scratch !in names
    else
      && job.scratch in names && names[job.scratch] < |inodes|
      && Holds(job, phase, names[job.scratch], inodes[names[job.scratch]])
  }

  /** Every call has a name of its own beside the target. */
  predicate OwnNames(jobs: seq<Job>) {
    && (forall w :: 0 <= w < |jobs| ==> jobs[w].scratch != Target)
    && (forall v, w :: 0 <= v < |jobs| && 0 <= w < |jobs| && jobs[v].scratch == jobs[w].scratch ==> v == w)
  }

  predicate Inv(jobs: seq<Job>, original: Option<Inode>, s: World) {
    && |s.phases| == |jobs| && Sound(jobs, original, s)
    && (!s.crashed ==>
          && (forall w :: 0 <= w < |jobs| ==> Progress(jobs[w], s.phases[w], s.names, s.inodes))
          && (Target in s.names ==> s.past[s.names[Target]] == s.latest))
    && (s.crashed ==> forall w :: 0 <= w < |jobs| ==> s.phases[w] == Over)
  }

  /** Before anything runs: no call has started, every source to be moved holds its payload and no
      temporary exists. */
  predicate Initial(jobs: seq<Job>, original: Option<Inode>, s: World) {
    && Inv(jobs, original, s) && !s.crashed && s.latest == None
    && (forall w :: 0 <= w < |jobs| ==> s.phases[w] == Start)
    && (original.Some? <==> Target in s.names)
  }

  /** An effect a call may have: it touches its own file only, and renames it only when it is complete. */
  predicate Fair(job: Job, s: World, effect: Effect) {
    match effect
    case Nothing => true
    case Create(inode) => job.scratch !in s.names
    case Change(i, inode) => job.scratch in s.names && s.names[job.scratch] == i
    case Rename => job.scratch in s.names && s.names[job.scratch] < |s.inodes|
      && Complete(job, s.inodes[s.names[job.scratch]])
    case Unlink => true
  }

  lemma {:induction false} NextStepIsFair(job: Job, phase: Phase, s: World, who: nat, n: nat)
    requires who < |s.phases| && s.phases[who] == phase && job.scratch != Target
    requires Progress(job, phase, s.names, s.inodes)
    ensures var (effect, after) := NextStep(job, phase, s.names, s.inodes, n);
            && Fair(job, s, effect)
            && var t := Apply(s, who, job.scratch, effect, after); Progress(job, after, t.names, t.inodes)
  {
    match phase
    case Start =>
    case Writing(i, k) =>
      if k < |job.payload| {
        var to := Min(k + n, |job.payload|);
        assert job.payload[..k] + job.payload[k..to] == job.payload[..to];
      }
    case _ =>
  }

  lemma {:induction false} FailStepIsFair(job: Job, phase: Phase, s: World, who: nat)
    requires who < |s.phases| && s.phases[who] == phase && job.scratch != Target
    requires Progress(job, phase, s.names, s.inodes)
    ensures var (effect, after) := FailStep(job, phase);
            && Fair(job, s, effect)
            && var t := Apply(s, who, job.scratch, effect, after); Progress(job, after, t.names, t.inodes)
  {}

  lemma {:induction false} RenameKeepsSound(jobs: seq<Job>, original: Option<Inode>, s: World, who: nat, phase: Phase)
    requires Sound(jobs, original, s) && !s.crashed && who < |jobs| && who < |s.phases| && jobs[who].scratch != Target
    requires Fair(jobs[who], s, Rename)
    ensures Sound(jobs, original, Apply(s, who, jobs[who].scratch, Rename, phase))
  {}

  lemma {:induction false} FairKeepsSound(jobs: seq<Job>, original: Option<Inode>, s: World, who: nat, effect: Effect,
      phase: Phase)
    requires Sound(jobs, original, s) && !s.crashed && who < |jobs| && who < |s.phases| && jobs[who].scratch != Target
    requires Fair(jobs[who], s, effect)
    ensures Sound(jobs, original, Apply(s, who, jobs[who].scratch, effect, phase))
  {
    if effect.Rename? {
      RenameKeepsSound(jobs, original, s, who, phase);
    }
  }

  /** Another call's file and name are left alone. */
  lemma {:induction false} FairKeepsOthers(jobs: seq<Job>, original: Option<Inode>, s: World, who: nat, other: nat,
      effect: Effect, phase: Phase)
    requires Sound(jobs, original, s) && !s.crashed && OwnNames(jobs) && who < |jobs| && other < |jobs| && who != other
             && who < |s.phases|
    requires Fair(jobs[who], s, effect)
    ensures var t, name := Apply(s, who, jobs[who].scratch, effect, phase), jobs[other].scratch;
            && (name in t.names <==> name in s.names)
            && (name in s.names ==>
                  t.names[name] == s.names[name] && t.inodes[s.names[name]] == s.inodes[s.names[name]])
  {}

  lemma {:induction false} FairKeepsProgress(jobs: seq<Job>, original: Option<Inode>, s: World, who: nat, other: nat,
      effect: Effect, phase: Phase, otherPhase: Phase)
    requires Sound(jobs, original, s) && !s.crashed && OwnNames(jobs) && who < |jobs| && other < |jobs| && who != other
             && who < |s.phases|
    requires Fair(jobs[who], s, effect) && Progress(jobs[other], otherPhase, s.names, s.inodes)
    ensures var t := Apply(s, who, jobs[who].scratch, effect, phase);
            Progress(jobs[other], otherPhase, t.names, t.inodes)
  {
    FairKeepsOthers(jobs, original, s, who, other, effect, phase);
  }

  lemma {:induction false} FairKeepsInv(jobs: seq<Job>, original: Option<Inode>, s: World, who: nat, effect: Effect,
      phase: Phase)
    requires Inv(jobs, original, s) && OwnNames(jobs) && !s.crashed && who < |jobs| && Fair(jobs[who], s, effect)
    requires var t := Apply(s, who, jobs[who].scratch, effect, phase); Progress(jobs[who], phase, t.names, t.inodes)
    ensures Inv(jobs, original, Apply(s, who, jobs[who].scratch, effect, phase))
  {
    var t := Apply(s, who, jobs[who].scratch, effect, phase);
    FairKeepsSound(jobs, original, s, who, effect, phase);
    forall w | 0 <= w < |jobs| ensures Progress(jobs[w], t.phases[w], t.names, t.inodes) {
      if w != who {
        FairKeepsProgress(jobs, original, s, who, w, effect, phase, s.phases[w]);
      }
    }
  }

  lemma {:induction false} CutKeepsGenuine(
    jobs: seq<Job>, original: Option<Inode>, inode: Inode, writer: Option<nat>, crashed: bool, kept: nat, lost: bool)
    requires Genuine(jobs, original, inode, writer, crashed)
    ensures Genuine(jobs, original, Cut(inode, kept, lost), writer, true)
  {}

  lemma {:induction false} CrashKeepsInv(
    jobs: seq<Job>, original: Option<Inode>, s: World, kept: nat, lost: set<nat>, back: Option<nat>)
    requires Inv(jobs, original, s)
    ensures Inv(jobs, original, Next(jobs, original, s, Crash(kept, lost, back)))
  {
    var t := Next(jobs, original, s, Crash(kept, lost, back));
    forall i | i in t.past ensures i < |t.inodes| && Genuine(jobs, original, t.inodes[i], t.past[i], true) {
      CutKeepsGenuine(jobs, original, s.inodes[i], s.past[i], s.crashed, kept, i in lost);
    }
  }

  lemma {:induction false} NextKeepsInv(jobs: seq<Job>, original: Option<Inode>, s: World, action: Action)
    requires Inv(jobs, original, s) && OwnNames(jobs)
    ensures Inv(jobs, original, Next(jobs, original, s, action))
  {
    match action
    case Go(who, n) =>
      if who < |jobs| {
        if s.crashed {
          assert s.phases[who] == Over;
          assert Next(jobs, original, s, action).phases == s.phases;
        } else {
          NextStepIsFair(jobs[who], s.phases[who], s, who, n);
          var (effect, phase) := NextStep(jobs[who], s.phases[who], s.names, s.inodes, n);
          FairKeepsInv(jobs, original, s, who, effect, phase);
        }
      }
    case Fail(who) =>
      if who < |jobs| {
        if s.crashed {
          assert s.phases[who] == Over;
          assert Next(jobs, original, s, action).phases == s.phases;
        } else {
          FailStepIsFair(jobs[who], s.phases[who], s, who);
          var (effect, phase) := FailStep(jobs[who], s.phases[who]);
          FairKeepsInv(jobs, original, s, who, effect, phase);
        }
      }
    case Crash(kept, lost, back) =>
      CrashKeepsInv(jobs, original, s, kept, lost, back);
  }

  function Run(jobs: seq<Job>, original: Option<Inode>, s: World, actions: seq<Action>): World {
    if actions == [] then s
    else Next(jobs, original, Run(jobs, original, s, actions[..|actions| - 1]), actions[|actions| - 1])
  }

  lemma {:induction false} RunKeepsInv(jobs: seq<Job>, original: Option<Inode>, s: World, actions: seq<Action>)
    requires Inv(jobs, original, s) && OwnNames(jobs)
    ensures Inv(jobs, original, Run(jobs, original, s, actions))
  {
    if actions != [] {
      RunKeepsInv(jobs, original, s, actions[..|actions| - 1]);
      NextKeepsInv(jobs, original, Run(jobs, original, s, actions[..|actions| - 1]), actions[|actions| - 1]);
    }
  }

  predicate WholeFile(jobs: seq<Job>, original: Option<Inode>, s: World, file: Inode) {
    file.synced
    && if s.crashed then original == Some(file) || exists w :: 0 <= w < |jobs| && Survives(jobs[w], file)
       else if s.latest.None? then original == Some(file)
       else s.latest.value < |jobs| && Complete(jobs[s.latest.value], file)
  }

  /** The target is whole: the original file, or one call's complete flushed payload in the mode it asked
      for, and missing only if there was none; without a crash it is the file of the call that renamed
      last. After a crash a Write's file may be back in the mode it was created with. */
  predicate Whole(jobs: seq<Job>, original: Option<Inode>, s: World) {
    if Target !in s.names then original == None
    else s.names[Target] < |s.inodes| && WholeFile(jobs, original, s, s.inodes[s.names[Target]])
  }

  /** No call that is over has left a temporary behind. */
  predicate Tidy(jobs: seq<Job>, s: World) {
    |s.phases| == |jobs| && forall w :: 0 <= w < |jobs| && jobs[w].Write? && s.phases[w].Over? ==>
      jobs[w].scratch !in s.names
  }

  lemma {:induction false} InvIsWhole(jobs: seq<Job>, original: Option<Inode>, s: World)
    requires Inv(jobs, original, s)
    ensures Whole(jobs, original, s) && (!s.crashed ==> Tidy(jobs, s))
  {
    if Target in s.names {
      assert s.names[Target] in s.past;
      assert Genuine(jobs, original, s.inodes[s.names[Target]], s.past[s.names[Target]], s.crashed);
    }
  }

  /** Whatever the interleaving of any number of calls, their failures and the crash, the target is whole;
      and temporaries survive only a crash. */
  lemma {:induction false} TargetIsWhole(jobs: seq<Job>, original: Option<Inode>, s: World, actions: seq<Action>)
    requires OwnNames(jobs) && Initial(jobs, original, s)
    ensures var t := Run(jobs, original, s, actions);
            Whole(jobs, original, t) && (!t.crashed ==> Tidy(jobs, t))
  {
    RunKeepsInv(jobs, original, s, actions);
    InvIsWhole(jobs, original, Run(jobs, original, s, actions));
  }

  /** The mode a crash leaves file `i` in when it makes that file the target. */
  function ModeAfterCrash(jobs: seq<Job>, original: Option<Inode>, s: World, i: nat, kept: nat, lost: set<nat>): nat
    requires i < |s.inodes|
  {
    Next(jobs, original, s, Crash(kept, lost, Some(i))).inodes[i].mode
  }

  /** The file of a call that asked for a mode, the target now or before, is in that mode after every crash
      exactly when the call was a Move, which sets the mode before it flushes, or a Write that created its
      temporary in that mode already. */
  lemma {:induction false} ModeIsKeptExactly(jobs: seq<Job>, original: Option<Inode>, s: World, actions: seq<Action>,
      i: nat, who: nat)
    requires OwnNames(jobs) && Initial(jobs, original, s)
    requires var t := Run(jobs, original, s, actions); !t.crashed && i in t.past && t.past[i] == Some(who)
    requires who < |jobs| && jobs[who].mode.Some?
    ensures var t := Run(jobs, original, s, actions);
            && i < |t.inodes|
            && ((forall kept, lost :: ModeAfterCrash(jobs, original, t, i, kept, lost) == jobs[who].mode.value)
                <==> jobs[who].Move? || jobs[who].created == jobs[who].mode.value)
  {
    var t := Run(jobs, original, s, actions);
    RunKeepsInv(jobs, original, s, actions);
    assert Genuine(jobs, original, t.inodes[i], Some(who), false);
    assert ModeAfterCrash(jobs, original, t, i, 0, {i}) == t.inodes[i].flushedMode;
    assert forall kept, lost :: ModeAfterCrash(jobs, original, t, i, kept, lost)
                                == if i in lost then t.inodes[i].flushedMode else t.inodes[i].mode;
  }

  // ----- a call that is left alone -----

  /** Steps a call has left until it has renamed its file, one byte a chunk at worst. */
  function Left(job: Job, phase: Phase): nat {
    match phase
    case Start => if job.Write? then |job.payload| + 4 else 3
    case Writing(_, k) => if k <= |job.payload| then |job.payload| - k + 3 else 0
    case Flushed => 2
    case Moded => 2
    case Ready => 1
    case Renamed => 0
    case Over => 0
  }

  function Alone(jobs: seq<Job>, original: Option<Inode>, s: World, who: nat, n: nat, steps: nat): World
    decreases steps
  {
    if steps == 0 then s else Alone(jobs, original, Next(jobs, original, s, Go(who, n)), who, n, steps - 1)
  }

  /** The target is this call's complete file. */
  predicate Published(jobs: seq<Job>, s: World, who: nat)
    requires who < |jobs|
  {
    && Target in s.names && s.names[Target] < |s.inodes| && Complete(jobs[who], s.inodes[s.names[Target]])
    && s.latest == Some(who)
  }

  lemma {:induction false} GoComesCloser(jobs: seq<Job>, original: Option<Inode>, s: World, who: nat, n: nat)
    requires Inv(jobs, original, s) && OwnNames(jobs) && !s.crashed && who < |jobs| && n >= 1
    requires !s.phases[who].Renamed? && !s.phases[who].Over?
    ensures var t := Next(jobs, original, s, Go(who, n));
            && |t.phases| == |jobs| && !t.crashed && !t.phases[who].Over?
            && Left(jobs[who], t.phases[who]) < Left(jobs[who], s.phases[who])
            && (s.phases[who].Ready? ==> Published(jobs, t, who))
            && (t.phases[who].Renamed? ==> s.phases[who].Ready?)
  {
    assert Progress(jobs[who], s.phases[who], s.names, s.inodes);
  }

  lemma {:induction false} LastStepPublishes(jobs: seq<Job>, original: Option<Inode>, s: World, who: nat, n: nat)
    requires Inv(jobs, original, s) && OwnNames(jobs) && !s.crashed && who < |jobs| && n >= 1 && s.phases[who].Ready?
    ensures Published(jobs, Alone(jobs, original, s, who, n, 1), who)
  {
    GoComesCloser(jobs, original, s, who, n);
    var t := Next(jobs, original, s, Go(who, n));
    assert Alone(jobs, original, t, who, n, 0) == t;
  }

  /** Wherever it is, a call that is neither disturbed nor over publishes its payload in the steps it has left. */
  lemma {:induction false} UndisturbedCallPublishes(jobs: seq<Job>, original: Option<Inode>, s: World, who: nat, n: nat)
      returns (steps: nat)
    requires Inv(jobs, original, s) && OwnNames(jobs) && !s.crashed && who < |jobs| && n >= 1
    requires !s.phases[who].Renamed? && !s.phases[who].Over?
    ensures steps <= Left(jobs[who], s.phases[who]) && Published(jobs, Alone(jobs, original, s, who, n, steps), who)
    decreases Left(jobs[who], s.phases[who])
  {
    if s.phases[who].Ready? {
      steps := 1;
      LastStepPublishes(jobs, original, s, who, n);
    } else {
      GoComesCloser(jobs, original, s, who, n);
      NextKeepsInv(jobs, original, s, Go(who, n));
      steps := UndisturbedCallPublishes(jobs, original, Next(jobs, original, s, Go(who, n)), who, n);
      steps := steps + 1;
    }
  }

  // ----- why the temporaries must differ -----

  function Sharing(tag: nat): seq<Job> {
    [Write([1], None, Sibling(tag), 0), Write([2], None, Sibling(tag), 0), Write([3], None, Sibling(tag), 0)]
  }

  /** The first call renames the temporary, the second creates it again, the first is then interrupted and
      unlinks it, the third creates it once more, and the second renames the third's still empty file. */
  function Script(k: nat): Action {
    if k < 5 then Go(0, 1) else if k == 6 then Fail(0) else if k == 7 then Go(2, 1) else Go(1, 1)
  }

  function Scene(tag: nat, k: nat): World {
    var name, empty, one, two := Sibling(tag), Inode([], false, 0, 0), Inode([1], true, 0, 0), Inode([2], true, 0, 0);
    var alone, done, both := map[name := 0], map[Target := 0], map[Target := 0, name := 2];
    var s0 := World(map[], [], [Start, Start, Start], map[], None, false);
    var s5 := World(done, [one], [Renamed, Start, Start], map[0 := Some(0)], Some(0), false);
    if k == 0 then s0
    else if k == 1 then s0.(names := alone, inodes := [empty], phases := [Writing(0, 0), Start, Start])
    else if k == 2 then s0.(names := alone, inodes := [one.(synced := false)], phases := [Writing(0, 1), Start, Start])
    else if k == 3 then s0.(names := alone, inodes := [one], phases := [Flushed, Start, Start])
    else if k == 4 then s0.(names := alone, inodes := [one], phases := [Ready, Start, Start])
    else if k == 5 then s5
    else if k == 6 then
      s5.(names := map[Target := 0, name := 1], inodes := [one, empty], phases := [Renamed, Writing(1, 0), Start])
    else if k == 7 then s5.(inodes := [one, empty], phases := [Over, Writing(1, 0), Start])
    else if k == 8 then
      s5.(names := both, inodes := [one, empty, empty], phases := [Over, Writing(1, 0), Writing(2, 0)])
    else if k == 9 then
      s5.(names := both, inodes := [one, two.(synced := false), empty], phases := [Over, Writing(1, 1), Writing(2, 0)])
    else if k == 10 then s5.(names := both, inodes := [one, two, empty], phases := [Over, Flushed, Writing(2, 0)])
    else if k == 11 then s5.(names := both, inodes := [one, two, empty], phases := [Over, Ready, Writing(2, 0)])
    else
      World(map[Target := 2], [one, two, empty], [Over, Renamed, Writing(2, 0)],
            map[0 := Some(0), 2 := Some(1)], Some(1), false)
  }

  lemma {:induction false} WriteAll(jobs: seq<Job>, s: World, who: nat, i: nat, byte: int)
    requires who < |jobs| && who < |s.phases| && i < |s.inodes| && jobs[who].payload == [byte]
    requires s.phases[who] == Writing(i, 0) && s.inodes[i].data == []
    ensures Next(jobs, None, s, Go(who, 1))
         == s.(inodes := s.inodes[i := s.inodes[i].(data := [byte])], phases := s.phases[who := Writing(i, 1)])
  {
    assert [] + jobs[who].payload[0..1] == [byte];
  }

  lemma {:induction false} FirstScenes(tag: nat, k: nat)
    requires k < 5
    ensures Next(Sharing(tag), None, Scene(tag, k), Script(k)) == Scene(tag, k + 1)
  {
    if k == 1 {
      WriteAll(Sharing(tag), Scene(tag, 1), 0, 0, 1);
    } else if k == 4 {
      assert Scene(tag, 4).names[Target := 0] - {Sibling(tag)} == Scene(tag, 5).names;
    }
  }

  lemma {:induction false} MiddleScenes(tag: nat, k: nat)
    requires 5 <= k < 8
    ensures Next(Sharing(tag), None, Scene(tag, k), Script(k)) == Scene(tag, k + 1)
  {
    if k == 5 {
      assert Scene(tag, 5).names[Sibling(tag) := 1] == Scene(tag, 6).names;
    } else if k == 6 {
      assert Scene(tag, 6).names - {Sibling(tag)} == Scene(tag, 7).names;
    } else {
      assert Scene(tag, 7).names[Sibling(tag) := 2] == Scene(tag, 8).names;
    }
  }

  lemma {:induction false} LastScenes(tag: nat, k: nat)
    requires 8 <= k < 12
    ensures Next(Sharing(tag), None, Scene(tag, k), Script(k)) == Scene(tag, k + 1)
  {
    if k == 8 {
      WriteAll(Sharing(tag), Scene(tag, 8), 1, 1, 2);
    } else if k == 11 {
      assert Scene(tag, 11).names[Target := 2] - {Sibling(tag)} == Scene(tag, 12).names;
    }
  }

  lemma {:induction false} SceneFollows(tag: nat, k: nat)
    requires k < 12
    ensures Next(Sharing(tag), None, Scene(tag, k), Script(k)) == Scene(tag, k + 1)
  {
    if k < 5 {
      FirstScenes(tag, k);
    } else if k < 8 {
      MiddleScenes(tag, k);
    } else {
      LastScenes(tag, k);
    }
  }

  function Scripted(k: nat): seq<Action> {
    if k == 0 then [] else Scripted(k - 1) + [Script(k - 1)]
  }

  lemma {:induction false} OneMore(jobs: seq<Job>, s: World, actions: seq<Action>, action: Action)
    ensures Run(jobs, None, s, actions + [action]) == Next(jobs, None, Run(jobs, None, s, actions), action)
  {
    assert (actions + [action])[..|actions|] == actions;
  }

  lemma {:induction false} ScriptPlays(tag: nat, k: nat)
    requires k <= 12
    ensures Run(Sharing(tag), None, Scene(tag, 0), Scripted(k)) == Scene(tag, k)
  {
    if k > 0 {
      ScriptPlays(tag, k - 1);
      SceneFollows(tag, k - 1);
      OneMore(Sharing(tag), Scene(tag, 0), Scripted(k - 1), Script(k - 1));
    }
  }

  lemma {:induction false} LastSceneIsTorn(tag: nat)
    ensures !Whole(Sharing(tag), None, Scene(tag, 12))
  {
    assert Scene(tag, 12).inodes[2] == Inode([], false, 0, 0);
  }

  /** Calls that share a temporary can tear the target. */
  lemma {:induction false} SharedTemporaryTears(tag: nat)
    ensures Initial(Sharing(tag), None, Scene(tag, 0))
    ensures !Whole(Sharing(tag), None, Run(Sharing(tag), None, Scene(tag, 0), Scripted(12)))
  {
    ScriptPlays(tag, 12);
    LastSceneIsTorn(tag);
  }

  // ----- the calls themselves -----

  /** Where a call is interrupted, if it is. */
  datatype Fault = Clear | OnOpen | OnWrite(written: nat) | OnSync | OnChmod | OnRename | AfterRename

  /** The steps the protocol makes for a call on its own, from each of its phases to its end. */
  function FromRenamed(job: Job, fault: Fault): seq<Action> {
    if fault.Clear? then [Go(0, |job.payload|)] else [Fail(0)]
  }

  function FromReady(job: Job, fault: Fault): seq<Action> {
    if fault.OnRename? then [Fail(0)] else [Go(0, |job.payload|)] + FromRenamed(job, fault)
  }

  function FromFlushed(job: Job, fault: Fault): seq<Action> {
    if fault.OnChmod? then [Fail(0)] else [Go(0, |job.payload|)] + FromReady(job, fault)
  }

  function FromWritten(job: Job, fault: Fault): seq<Action> {
    if fault.OnWrite? || fault.OnSync? then [Fail(0)] else [Go(0, |job.payload|)] + FromFlushed(job, fault)
  }

  /** An empty payload needs no write. */
  function FromOpened(job: Job, fault: Fault): seq<Action> {
    if job.payload == [] then FromWritten(job, fault)
    else [Go(0, if fault.OnWrite? then fault.written else |job.payload|)] + FromWritten(job, fault)
  }

  function FromModed(job: Job, fault: Fault): seq<Action> {
    if fault.OnSync? then [Fail(0)] else [Go(0, |job.payload|)] + FromReady(job, fault)
  }

  function CallSteps(job: Job, fault: Fault): seq<Action> {
    if fault.OnOpen? || (job.Move? && (fault.OnWrite? || fault.OnChmod?)) then [Fail(0)]
    else if job.Write? then [Go(0, |job.payload|)] + FromOpened(job, fault)
    else [Go(0, |job.payload|)] + FromModed(job, fault)
  }

  // What the call makes of the directory.

  function WithMode(job: Job, inode: Inode): Inode {
    if job.mode.Some? then inode.(mode := job.mode.value) else inode
  }

  /** Where the temporary has got to when the fault strikes. */
  function WrittenFile(job: Job, fault: Fault): Inode
    requires job.Write? && !fault.OnOpen?
  {
    var open, full := Inode([], false, job.created, job.created), Inode(job.payload, false, job.created, job.created);
    match fault
    case OnWrite(k) => open.(data := job.payload[..Min(k, |job.payload|)])
    case OnSync => full
    case OnChmod => Flush(full)
    case _ => WithMode(job, Flush(full))
  }

  function MovedFile(job: Job, fault: Fault, source: Inode): Inode {
    match fault
    case OnOpen => source
    case OnWrite(_) => source
    case OnChmod => source
    case OnSync => WithMode(job, source)
    case _ => Flush(WithMode(job, source))
  }

  predicate Renames(fault: Fault) {
    fault.Clear? || fault.AfterRename?
  }

  function NamesAfter(job: Job, fault: Fault, names: map<Name, nat>, inodes: seq<Inode>): map<Name, nat> {
    if job.Write? then
      if job.scratch !in names && Renames(fault) then names[Target := |inodes|] else names
    else if job.scratch in names && Renames(fault) then names[Target := names[job.scratch]] - {job.scratch}
    else names
  }

  lemma {:induction false} LastUpdate(inodes: seq<Inode>, i: nat, a: Inode, b: Inode)
    requires i < |inodes|
    ensures inodes[i := a][i := b] == inodes[i := b]
  {}

  function InodesAfter(job: Job, fault: Fault, names: map<Name, nat>, inodes: seq<Inode>): seq<Inode> {
    if job.Write? then
      if job.scratch in names || fault.OnOpen? then inodes else inodes + [WrittenFile(job, fault)]
    else if job.scratch in names && names[job.scratch] < |inodes| then
      inodes[names[job.scratch] := MovedFile(job, fault, inodes[names[job.scratch]])]
    else inodes
  }

  function Begun(names: map<Name, nat>, inodes: seq<Inode>): World {
    World(names, inodes, [Start], map[], None, false)
  }

  lemma {:induction false} RunsCompose(jobs: seq<Job>, s: World, a: seq<Action>, b: seq<Action>)
    ensures Run(jobs, None, s, a + b) == Run(jobs, None, Run(jobs, None, s, a), b)
  {
    if b == [] {
      assert a + b == a;
    } else {
      RunsCompose(jobs, s, a, b[..|b| - 1]);
      assert (a + b)[..|a + b| - 1] == a + b[..|b| - 1];
    }
  }

  lemma {:induction false} OnlyStep(jobs: seq<Job>, s: World, action: Action)
    ensures Run(jobs, None, s, [action]) == Next(jobs, None, s, action)
  {
    assert [action][..0] == [];
  }

  lemma {:induction false} FirstStep(jobs: seq<Job>, s: World, action: Action, rest: seq<Action>)
    ensures Run(jobs, None, s, [action] + rest) == Run(jobs, None, Next(jobs, None, s, action), rest)
  {
    OnlyStep(jobs, s, action);
    RunsCompose(jobs, s, [action], rest);
  }

  /** A run ends with the call over, in the given directory. */
  predicate Ends(t: World, names: map<Name, nat>, inodes: seq<Inode>) {
    t.names == names && t.inodes == inodes && t.phases == [Over]
  }

  predicate HasFile(job: Job, s: World, phase: Phase, inode: Inode) {
    && s.phases == [phase] && job.scratch != Target
    && job.scratch in s.names && s.names[job.scratch] < |s.inodes| && s.inodes[s.names[job.scratch]] == inode
  }

  /** A failing call leaves the target; a Write unlinks its temporary. */
  function NamesLeft(job: Job, names: map<Name, nat>): map<Name, nat> {
    if job.Write? then names - {job.scratch} else names
  }

  lemma {:induction false} FailEnds(job: Job, s: World, phase: Phase)
    requires s.phases == [phase] && !phase.Over? && !phase.Start?
    ensures Ends(Run([job], None, s, [Fail(0)]), NamesLeft(job, s.names), s.inodes)
  {
    OnlyStep([job], s, Fail(0));
  }

  lemma {:induction false} ReadyRenames(job: Job, s: World, inode: Inode, t: World)
    requires HasFile(job, s, Ready, inode) && t == Next([job], None, s, Go(0, |job.payload|))
    ensures t.names == s.names[Target := s.names[job.scratch]] - {job.scratch} && t.inodes == s.inodes
            && t.phases == [Renamed]
  {}

  lemma {:induction false} ReadyStep(job: Job, s: World, inode: Inode, rest: seq<Action>) returns (t: World)
    requires HasFile(job, s, Ready, inode)
    ensures Run([job], None, s, [Go(0, |job.payload|)] + rest) == Run([job], None, t, rest)
    ensures t.names == s.names[Target := s.names[job.scratch]] - {job.scratch} && t.inodes == s.inodes
            && t.phases == [Renamed]
  {
    t := Next([job], None, s, Go(0, |job.payload|));
    ReadyRenames(job, s, inode, t);
    FirstStep([job], s, Go(0, |job.payload|), rest);
  }

  lemma {:induction false} RenamedEnds(job: Job, s: World, fault: Fault)
    requires s.phases == [Renamed] && job.scratch !in s.names
    ensures Ends(Run([job], None, s, FromRenamed(job, fault)), s.names, s.inodes)
  {
    OnlyStep([job], s, if fault.Clear? then Go(0, |job.payload|) else Fail(0));
    assert s.names - {job.scratch} == s.names;
  }

  lemma {:induction false} RunFromReady(job: Job, s: World, fault: Fault, inode: Inode)
    requires HasFile(job, s, Ready, inode)
    ensures Ends(Run([job], None, s, FromReady(job, fault)),
                 if fault.OnRename? then NamesLeft(job, s.names)
                 else s.names[Target := s.names[job.scratch]] - {job.scratch}, s.inodes)
  {
    if fault.OnRename? {
      FailEnds(job, s, Ready);
    } else {
      var t := ReadyStep(job, s, inode, FromRenamed(job, fault));
      RenamedEnds(job, t, fault);
    }
  }

  /** A step that changes the call's own file: flush, chmod or a chunk. */
  lemma {:induction false} FileStep(job: Job, s: World, phase: Phase, inode: Inode, n: nat, rest: seq<Action>,
                                    after: Phase, changed: Inode) returns (t: World)
    requires HasFile(job, s, phase, inode)
    requires NextStep(job, phase, s.names, s.inodes, n) == (Change(s.names[job.scratch], changed), after)
    ensures Run([job], None, s, [Go(0, n)] + rest) == Run([job], None, t, rest)
    ensures HasFile(job, t, after, changed) && t.names == s.names
            && t.inodes == s.inodes[s.names[job.scratch] := changed]
  {
    FirstStep([job], s, Go(0, n), rest);
    t := Next([job], None, s, Go(0, n));
  }

  /** chmod, which does nothing when no mode is asked for. */
  lemma {:induction false} ModeStep(job: Job, s: World, phase: Phase, inode: Inode, rest: seq<Action>)
      returns (t: World)
    requires HasFile(job, s, phase, inode) && phase == if job.Write? then Flushed else Start
    ensures Run([job], None, s, [Go(0, |job.payload|)] + rest) == Run([job], None, t, rest)
    ensures HasFile(job, t, if job.Write? then Ready else Moded, WithMode(job, inode)) && t.names == s.names
    ensures t.inodes == s.inodes[s.names[job.scratch] := WithMode(job, inode)]
  {
    var after := if job.Write? then Ready else Moded;
    if job.mode.Some? {
      t := FileStep(job, s, phase, inode, |job.payload|, rest, after, WithMode(job, inode));
    } else {
      FirstStep([job], s, Go(0, |job.payload|), rest);
      t := Next([job], None, s, Go(0, |job.payload|));
      assert s.inodes[s.names[job.scratch] := inode] == s.inodes;
    }
  }

  lemma {:induction false} RunFromFlushed(job: Job, s: World, i: nat, fault: Fault, inode: Inode)
    requires job.Write? && HasFile(job, s, Flushed, inode) && s.names[job.scratch] == i
    requires !fault.OnOpen? && !fault.OnWrite? && !fault.OnSync?
    ensures Ends(Run([job], None, s, FromFlushed(job, fault)),
                 if Renames(fault) then s.names[Target := i] - {job.scratch} else s.names - {job.scratch},
                 s.inodes[i := if fault.OnChmod? then inode else WithMode(job, inode)])
  {
    if fault.OnChmod? {
      FailEnds(job, s, Flushed);
    } else {
      var t := ModeStep(job, s, Flushed, inode, FromReady(job, fault));
      RunFromReady(job, t, fault, WithMode(job, inode));
    }
  }

  lemma {:induction false} RunFromWritten(job: Job, s: World, i: nat, k: nat, fault: Fault, inode: Inode)
    requires job.Write? && HasFile(job, s, Writing(i, k), inode) && s.names[job.scratch] == i
    requires !fault.OnOpen? && if fault.OnWrite? then k <= |job.payload| else k == |job.payload|
    ensures Ends(Run([job], None, s, FromWritten(job, fault)),
                 if Renames(fault) then s.names[Target := i] - {job.scratch} else s.names - {job.scratch},
                 s.inodes[i := if fault.OnWrite? || fault.OnSync? then inode
                               else if fault.OnChmod? then Flush(inode) else WithMode(job, Flush(inode))])
  {
    if fault.OnWrite? || fault.OnSync? {
      FailEnds(job, s, Writing(i, k));
    } else {
      var t := FileStep(job, s, Writing(i, k), inode, k, FromFlushed(job, fault), Flushed, Flush(inode));
      RunFromFlushed(job, t, i, fault, Flush(inode));
      LastUpdate(s.inodes, i, Flush(inode), if fault.OnChmod? then Flush(inode) else WithMode(job, Flush(inode)));
    }
  }

  lemma {:induction false} NothingToWrite(job: Job, fault: Fault, open: Inode)
    requires job.Write? && !fault.OnOpen? && job.payload == [] && open == Inode([], false, job.created, job.created)
    ensures WrittenFile(job, fault)
         == if fault.OnWrite? || fault.OnSync? then open
            else if fault.OnChmod? then Flush(open) else WithMode(job, Flush(open))
  {
    assert fault.OnWrite? ==> job.payload[..Min(fault.written, 0)] == [];
  }

  lemma {:induction false} RunFromOpened(job: Job, s: World, i: nat, fault: Fault, open: Inode)
    requires job.Write? && !fault.OnOpen? && HasFile(job, s, Writing(i, 0), open) && s.names[job.scratch] == i
    requires open == Inode([], false, job.created, job.created)
    ensures Ends(Run([job], None, s, FromOpened(job, fault)),
                 if Renames(fault) then s.names[Target := i] - {job.scratch} else s.names - {job.scratch},
                 s.inodes[i := WrittenFile(job, fault)])
  {
    if job.payload == [] {
      RunFromWritten(job, s, i, 0, fault, open);
      NothingToWrite(job, fault, open);
    } else {
      var n := if fault.OnWrite? then fault.written else |job.payload|;
      var k := Min(n, |job.payload|);
      var bytes := open.(data := job.payload[..k]);
      assert [] + job.payload[0..k] == job.payload[..k];
      var t := FileStep(job, s, Writing(i, 0), open, n, FromWritten(job, fault), Writing(i, k), bytes);
      RunFromWritten(job, t, i, k, fault, bytes);
      assert !fault.OnWrite? ==> job.payload[..k] == job.payload;
      LastUpdate(s.inodes, i, bytes, WrittenFile(job, fault));
    }
  }

  lemma {:induction false} RunFromModed(job: Job, s: World, i: nat, fault: Fault, inode: Inode)
    requires job.Move? && HasFile(job, s, Moded, inode) && s.names[job.scratch] == i
    requires !fault.OnOpen? && !fault.OnWrite? && !fault.OnChmod?
    ensures Ends(Run([job], None, s, FromModed(job, fault)),
                 if Renames(fault) then s.names[Target := i] - {job.scratch} else s.names,
                 s.inodes[i := if fault.OnSync? then inode else Flush(inode)])
  {
    if fault.OnSync? {
      FailEnds(job, s, Moded);
    } else {
      var t := FileStep(job, s, Moded, inode, |job.payload|, FromReady(job, fault), Ready, Flush(inode));
      RunFromReady(job, t, fault, Flush(inode));
    }
  }

  lemma {:induction false} OpenStep(job: Job, names: map<Name, nat>, inodes: seq<Inode>, rest: seq<Action>)
      returns (t: World)
    requires job.Write? && job.scratch != Target && job.scratch !in names
    ensures Run([job], None, Begun(names, inodes), [Go(0, |job.payload|)] + rest) == Run([job], None, t, rest)
    ensures t.names == names[job.scratch := |inodes|]
    ensures t.inodes == inodes + [Inode([], false, job.created, job.created)]
    ensures HasFile(job, t, Writing(|inodes|, 0), Inode([], false, job.created, job.created))
  {
    FirstStep([job], Begun(names, inodes), Go(0, |job.payload|), rest);
    t := Next([job], None, Begun(names, inodes), Go(0, |job.payload|));
  }

  lemma {:induction false} WithAndWithout(names: map<Name, nat>, scratch: Name, i: nat)
    requires scratch !in names && scratch != Target
    ensures names[scratch := i][Target := i] - {scratch} == names[Target := i]
    ensures names[scratch := i] - {scratch} == names
  {}

  lemma {:induction false} LastReplaced(inodes: seq<Inode>, a: Inode, b: Inode)
    ensures (inodes + [a])[|inodes| := b] == inodes + [b]
  {}

  /** A call that fails before its first effect. */
  lemma {:induction false} StartFails(job: Job, s: World)
    requires s.phases == [Start]
    ensures Ends(Run([job], None, s, [Fail(0)]), s.names, s.inodes)
  {
    OnlyStep([job], s, Fail(0));
  }

  predicate OwnSteps(actions: seq<Action>) {
    forall k :: 0 <= k < |actions| ==> actions[k] == Fail(0) || (actions[k].Go? && actions[k].who == 0)
  }

  lemma {:induction false} StepsAreOwn(job: Job, fault: Fault)
    ensures OwnSteps(FromOpened(job, fault)) && OwnSteps(FromModed(job, fault))
  {
    assert OwnSteps(FromReady(job, fault));
    assert OwnSteps(FromWritten(job, fault));
  }

  lemma {:induction false} OverStays(job: Job, s: World, actions: seq<Action>)
    requires s.phases == [Over] && OwnSteps(actions)
    ensures Ends(Run([job], None, s, actions), s.names, s.inodes)
  {
    if actions != [] {
      OverStays(job, s, actions[..|actions| - 1]);
      assert actions[|actions| - 1] == Fail(0) || actions[|actions| - 1].Go?;
    }
  }

  lemma {:induction false} TakenNameEnds(job: Job, fault: Fault, s: World)
    requires s.phases == [Start] && job.Write? && job.scratch in s.names
    ensures Ends(Run([job], None, s, CallSteps(job, fault)), s.names, s.inodes)
  {
    if fault.OnOpen? {
      StartFails(job, s);
    } else {
      StepsAreOwn(job, fault);
      FirstStep([job], s, Go(0, |job.payload|), FromOpened(job, fault));
      OverStays(job, Next([job], None, s, Go(0, |job.payload|)), FromOpened(job, fault));
    }
  }

  lemma {:induction false} MissingSourceStarts(job: Job, s: World) returns (t: World)
    requires s.phases == [Start] && job.Move? && job.scratch !in s.names
    ensures t == Next([job], None, s, Go(0, |job.payload|))
    ensures t.names == s.names && t.inodes == s.inodes && (t.phases == [Moded] || t.phases == [Over])
  {
    t := Next([job], None, s, Go(0, |job.payload|));
  }

  lemma {:induction false} MissingSourceStops(job: Job, s: World, action: Action)
    requires (s.phases == [Moded] || s.phases == [Over]) && job.Move? && job.scratch !in s.names
    requires action == Fail(0) || (action.Go? && action.who == 0)
    ensures var t := Next([job], None, s, action); t.names == s.names && t.inodes == s.inodes && t.phases == [Over]
  {}

  lemma {:induction false} MissingSourceEnds(job: Job, fault: Fault, s: World)
    requires s.phases == [Start] && job.Move? && job.scratch !in s.names
    ensures Ends(Run([job], None, s, CallSteps(job, fault)), s.names, s.inodes)
  {
    if fault.OnOpen? || fault.OnWrite? || fault.OnChmod? {
      StartFails(job, s);
    } else {
      var rest := FromModed(job, fault);
      StepsAreOwn(job, fault);
      var t := MissingSourceStarts(job, s);
      FirstStep([job], s, Go(0, |job.payload|), rest);
      assert rest == [rest[0]] + rest[1..];
      FirstStep([job], t, rest[0], rest[1..]);
      MissingSourceStops(job, t, rest[0]);
      OverStays(job, Next([job], None, t, rest[0]), rest[1..]);
    }
  }

  lemma {:induction false} FreshWriteIsItsSteps(job: Job, fault: Fault, names: map<Name, nat>, inodes: seq<Inode>)
    requires job.Write? && job.scratch != Target && job.scratch !in names
    ensures Ends(Run([job], None, Begun(names, inodes), CallSteps(job, fault)),
                 NamesAfter(job, fault, names, inodes), InodesAfter(job, fault, names, inodes))
  {
    var i, open := |inodes|, Inode([], false, job.created, job.created);
    if fault.OnOpen? {
      StartFails(job, Begun(names, inodes));
    } else {
      var t := OpenStep(job, names, inodes, FromOpened(job, fault));
      RunFromOpened(job, t, i, fault, open);
      WithAndWithout(names, job.scratch, i);
      LastReplaced(inodes, open, WrittenFile(job, fault));
    }
  }

  lemma {:induction false} WriteIsItsSteps(job: Job, fault: Fault, names: map<Name, nat>, inodes: seq<Inode>)
    requires job.Write? && job.scratch != Target
    ensures Ends(Run([job], None, Begun(names, inodes), CallSteps(job, fault)),
                 NamesAfter(job, fault, names, inodes), InodesAfter(job, fault, names, inodes))
  {
    if job.scratch in names {
      TakenNameEnds(job, fault, Begun(names, inodes));
    } else {
      FreshWriteIsItsSteps(job, fault, names, inodes);
    }
  }

  lemma {:induction false} PresentMoveIsItsSteps(job: Job, fault: Fault, names: map<Name, nat>, inodes: seq<Inode>)
    requires job.Move? && job.scratch != Target && job.scratch in names && names[job.scratch] < |inodes|
    ensures Ends(Run([job], None, Begun(names, inodes), CallSteps(job, fault)),
                 NamesAfter(job, fault, names, inodes), InodesAfter(job, fault, names, inodes))
  {
    var s, i, source := Begun(names, inodes), names[job.scratch], inodes[names[job.scratch]];
    if fault.OnOpen? || fault.OnWrite? || fault.OnChmod? {
      StartFails(job, s);
    } else {
      var t := ModeStep(job, s, Start, source, FromModed(job, fault));
      RunFromModed(job, t, i, fault, WithMode(job, source));
      LastUpdate(inodes, i, WithMode(job, source), MovedFile(job, fault, source));
    }
  }

  lemma {:induction false} MoveIsItsSteps(job: Job, fault: Fault, names: map<Name, nat>, inodes: seq<Inode>)
    requires job.Move? && job.scratch != Target && (job.scratch in names ==> names[job.scratch] < |inodes|)
    ensures Ends(Run([job], None, Begun(names, inodes), CallSteps(job, fault)),
                 NamesAfter(job, fault, names, inodes), InodesAfter(job, fault, names, inodes))
  {
    if job.scratch in names {
      PresentMoveIsItsSteps(job, fault, names, inodes);
    } else {
      MissingSourceEnds(job, fault, Begun(names, inodes));
    }
  }

  predicate ValidNames(names: map<Name, nat>, inodes: seq<Inode>) {
    && (forall a :: a in names ==> names[a] < |inodes|)
    && (forall a, b :: a in names && b in names && names[a] == names[b] ==> a == b)
  }

  function File(names: map<Name, nat>, inodes: seq<Inode>, name: Name): Option<Inode> {
    if name in names && names[name] < |inodes| then Some(inodes[names[name]]) else None
  }

  /** One write, completed or interrupted: either the target is the whole payload in the requested mode or it
      is what it was, its temporary is gone, and no other name is affected, not even one its temporary has. */
  lemma {:induction false} WriteIsAllOrNothing(job: Job, fault: Fault, names: map<Name, nat>, inodes: seq<Inode>,
      name: Name)
    requires job.Write? && job.scratch != Target && ValidNames(names, inodes)
    ensures var names', inodes' := NamesAfter(job, fault, names, inodes), InodesAfter(job, fault, names, inodes);
            && ValidNames(names', inodes')
            && File(names', inodes', name)
            == if name == Target && (fault.Clear? || fault.AfterRename?) && job.scratch !in names
               then Some(Inode(job.payload, true, job.mode.GetOr(job.created), job.created))
               else File(names, inodes, name)
  {}

  /** One move: the source's bytes, flushed in the requested mode, become the target and the source's name is
      gone, or only the source's own mode and flush have changed. */
  lemma {:induction false} MoveIsAllOrNothing(job: Job, fault: Fault, names: map<Name, nat>, inodes: seq<Inode>,
      name: Name)
    requires job.Move? && job.scratch != Target && ValidNames(names, inodes)
    ensures job.scratch !in names ==> NamesAfter(job, fault, names, inodes) == names
                                      && InodesAfter(job, fault, names, inodes) == inodes
    ensures job.scratch in names ==>
            var names', inodes' := NamesAfter(job, fault, names, inodes), InodesAfter(job, fault, names, inodes);
            var source, renamed := inodes[names[job.scratch]], fault.Clear? || fault.AfterRename?;
            var mode, left := job.mode.GetOr(source.mode), File(names', inodes', name);
            && ValidNames(names', inodes')
            && (name == Target && renamed ==> left == Some(Inode(source.data, true, mode, mode)))
            && (name == job.scratch && renamed ==> left == None)
            && (name == job.scratch && !renamed ==>
                  left.Some? && left.value.data == source.data && left.value.mode in {source.mode, mode})
            && (name != job.scratch && !(name == Target && renamed) ==> left == File(names, inodes, name))
  {}

  /** The directory as the calls change it; what they make of it is what the protocol makes of it. */
  class Directory {
    var names: map<Name, nat>
    var inodes: seq<Inode>

    /** The body of the try block: descriptor `i` is the open temporary. */
    method FillAndRename(job: Job, i: nat, fault: Fault) returns (ok: bool)
      requires job.Write? && !fault.OnOpen? && job.scratch in names && names[job.scratch] == i < |inodes|
      requires inodes[i] == Inode([], false, job.created, job.created)
      modifies this
      ensures ok == fault.Clear?
      ensures names == if Renames(fault) then old(names)[Target := i] - {job.scratch} else old(names)
      ensures inodes == old(inodes)[i := WrittenFile(job, fault)]
    {
      if fault.OnWrite? {
        inodes := inodes[i := inodes[i].(data := job.payload[..Min(fault.written, |job.payload|)])];
        return false;
      }
      inodes := inodes[i := inodes[i].(data := job.payload)];
      if fault.OnSync? {
        return false;
      }
      inodes := inodes[i := Flush(inodes[i])];
      if fault.OnChmod? {
        return false;
      }
      if job.mode.Some? {
        inodes := inodes[i := inodes[i].(mode := job.mode.value)];
      }
      if fault.OnRename? {
        return false;
      }
      names := names[Target := names[job.scratch]] - {job.scratch};
      return fault.Clear?;
    }

    /** A write of its own temporary, or the error when that exists or cannot be opened. */
    method AtomicWriteBytes(job: Job, fault: Fault) returns (ok: bool)
      requires job.Write? && job.scratch != Target
      modifies this
      ensures ok == (fault.Clear? && job.scratch !in old(names))
      ensures names == NamesAfter(job, fault, old(names), old(inodes))
      ensures inodes == InodesAfter(job, fault, old(names), old(inodes))
    {
      if fault.OnOpen? || job.scratch in names {
        return false;
      }
      var descriptor := |inodes|;
      names, inodes := names[job.scratch := descriptor], inodes + [Inode([], false, job.created, job.created)];
      ok := FillAndRename(job, descriptor, fault);
      if !ok {
        names := names - {job.scratch};
      }
      assert inodes == old(inodes) + [WrittenFile(job, fault)];
    }

    /** A move of a source that exists. */
    method ReplaceDurably(job: Job, fault: Fault) returns (ok: bool)
      requires job.Move? && job.scratch != Target && (job.scratch in names ==> names[job.scratch] < |inodes|)
      modifies this
      ensures ok == (fault.Clear? && job.scratch in old(names))
      ensures names == NamesAfter(job, fault, old(names), old(inodes))
      ensures inodes == InodesAfter(job, fault, old(names), old(inodes))
    {
      if job.scratch !in names {
        return false;
      }
      var i := names[job.scratch];
      if fault.OnOpen? || fault.OnWrite? || fault.OnChmod? {
        return false;
      }
      if job.mode.Some? {
        inodes := inodes[i := inodes[i].(mode := job.mode.value)];
      }
      if fault.OnSync? {
        return false;
      }
      inodes := inodes[i := Flush(inodes[i])];
      if fault.OnRename? {
        return false;
      }
      names := names[Target := i] - {job.scratch};
      return fault.Clear?;
    }
  }
}
