/** The recording catalog on values: hook inserts, the reconciler's repairs, and runs of both in which
    hooks are dropped, repeated or late and reconcilers crash after any mutation. */
module Reconciliation {
  import opened Wrappers

  const PREBUFFER := "/prebuffer/"

  datatype LocationState = Available | Missing | Deleted

  datatype Source = Hook | Reconcile

  datatype Facts = Facts(stream: string, start: real, duration: real)

  /** A catalogued segment with its location. */
  datatype Row = Row(
    path: string, state: LocationState, source: Source, stream: string, start: real, end: real, duration: real)

  /** What path and media inspection say about a file. */
  datatype Inspection = NoIdentity | ProbeFailed | Media(facts: Facts)

  /** `listing` holds the finalized recordings in the order they are scanned. */
  datatype World = World(existing: set<string>, listing: seq<string>, inspect: string -> Inspection)

  predicate ValidWorld(world: World) {
    NoRepeats(world.listing) && forall p :: p in world.listing ==> p in world.existing
  }

  predicate Recoverable(world: World, path: string) {
    world.inspect(path).Media? && world.inspect(path).facts.duration > 0.0
  }

  // ----- rows -----

  function Paths(rows: seq<Row>): set<string> {
    set row | row in rows :: row.path
  }

  predicate UniquePaths(rows: seq<Row>) {
    forall i, j :: 0 <= i < j < |rows| ==> rows[i].path != rows[j].path
  }

  function Lookup(rows: seq<Row>, path: string): Option<LocationState> {
    if rows == [] then None
    else if rows[0].path == path then Some(rows[0].state)
    else Lookup(rows[1..], path)
  }

  /** The row of a file that is there. */
  function Catalogued(path: string, source: Source, facts: Facts): Row {
    Row(path, Available, source, facts.stream, facts.start, facts.start + facts.duration, facts.duration)
  }

  /** Every insertion checks for the path inside its own transaction. */
  function Insert(rows: seq<Row>, row: Row): seq<Row> {
    if row.path in Paths(rows) then rows else rows + [row]
  }

  function SetMissing(rows: seq<Row>, path: string): seq<Row> {
    if rows == [] then []
    else [if rows[0].path == path then rows[0].(state := Missing) else rows[0]] + SetMissing(rows[1..], path)
  }

  // ----- repairs -----

  datatype Repair = MarkMissing(path: string) | Recover(path: string)

  function RecoveredRow(world: World, path: string): Row
    requires Recoverable(world, path)
  {
    Catalogued(path, Reconcile, world.inspect(path).facts)
  }

  function Apply(rows: seq<Row>, world: World, repair: Repair): seq<Row> {
    match repair
    case MarkMissing(path) => SetMissing(rows, path)
    case Recover(path) => if Recoverable(world, path) then Insert(rows, RecoveredRow(world, path)) else rows
  }

  function ApplyAll(rows: seq<Row>, world: World, repairs: seq<Repair>): seq<Row> {
    if repairs == [] then rows
    else Apply(ApplyAll(rows, world, repairs[..|repairs| - 1]), world, repairs[|repairs| - 1])
  }

  predicate Stale(world: World, row: Row) {
    row.state == Available && row.path !in world.existing
  }

  function Marks(rows: seq<Row>, world: World): seq<Repair> {
    if rows == [] then []
    else (if Stale(world, rows[0]) then [MarkMissing(rows[0].path)] else []) + Marks(rows[1..], world)
  }

  function Recoveries(known: set<string>, world: World, listing: seq<string>): seq<Repair> {
    if listing == [] then []
    else
      (if listing[0] !in known && Recoverable(world, listing[0]) then [Recover(listing[0])] else [])
      + Recoveries(known, world, listing[1..])
  }

  /** The outstanding repairs, in the order an uninterrupted run makes them. */
  function Repairs(rows: seq<Row>, world: World): seq<Repair> {
    Marks(rows, world) + Recoveries(Paths(rows), world, world.listing)
  }

  /** How many repairs a run makes when it is told to crash after `crashAfter` mutations. */
  function RunLength(outstanding: nat, crashAfter: Option<int>): (n: nat)
    ensures n <= outstanding
  {
    match crashAfter
    case None => outstanding
    case Some(k) => if outstanding == 0 then 0 else if k < 1 then 1 else if k < outstanding then k else outstanding
  }

  predicate RunCrashes(outstanding: nat, crashAfter: Option<int>) {
    crashAfter.Some? && outstanding >= 1 && outstanding >= crashAfter.value
  }

  function Reconciled(rows: seq<Row>, world: World, crashAfter: Option<int>): seq<Row> {
    var repairs := Repairs(rows, world);
    ApplyAll(rows, world, repairs[..RunLength(|repairs|, crashAfter)])
  }

  // ----- one repair at a time -----

  lemma {:induction false} PathsCons(rows: seq<Row>)
    requires rows != []
    ensures Paths(rows) == {rows[0].path} + Paths(rows[1..])
  {
    assert forall row :: row in rows <==> row == rows[0] || row in rows[1..];
  }

  lemma {:induction false} SetMissingAt(rows: seq<Row>, path: string)
    ensures |SetMissing(rows, path)| == |rows|
    ensures forall i :: 0 <= i < |rows| ==>
              SetMissing(rows, path)[i] == if rows[i].path == path then rows[i].(state := Missing) else rows[i]
  {
    if rows != [] {
      SetMissingAt(rows[1..], path);
    }
  }

  lemma {:induction false} SetMissingFacts(rows: seq<Row>, path: string)
    ensures var after := SetMissing(rows, path);
            && |after| == |rows| && Paths(after) == Paths(rows)
            && (forall i :: 0 <= i < |rows| ==>
                  after[i] == if rows[i].path == path then rows[i].(state := Missing) else rows[i])
            && (path !in Paths(rows) ==> after == rows)
  {
    SetMissingAt(rows, path);
    var after := SetMissing(rows, path);
    forall p ensures p in Paths(after) <==> p in Paths(rows) {
      if row :| row in rows && row.path == p {
        var i :| 0 <= i < |rows| && rows[i] == row;
        assert after[i] in after && after[i].path == p;
      }
      if row :| row in after && row.path == p {
        var i :| 0 <= i < |after| && after[i] == row;
        assert rows[i] in rows && rows[i].path == p;
      }
    }
    assert forall i :: 0 <= i < |rows| ==> rows[i] in rows && rows[i].path in Paths(rows);
  }

  lemma {:induction false} SetMissingKeepsPaths(rows: seq<Row>, path: string)
    ensures Paths(SetMissing(rows, path)) == Paths(rows)
  {
    SetMissingFacts(rows, path);
  }

  lemma {:induction false} UniqueCons(rows: seq<Row>)
    requires rows != [] && UniquePaths(rows)
    ensures UniquePaths(rows[1..]) && rows[0].path !in Paths(rows[1..])
  {
    forall row | row in rows[1..] ensures row.path != rows[0].path {
      var i :| 0 <= i < |rows[1..]| && rows[1..][i] == row;
      assert rows[i + 1] == row;
    }
  }

  lemma {:induction false} LookupIsRow(rows: seq<Row>, path: string)
    ensures Lookup(rows, path).Some? <==> path in Paths(rows)
    ensures UniquePaths(rows) ==> forall row :: row in rows && row.path == path ==>
            Lookup(rows, path) == Some(row.state)
  {
    if rows != [] {
      PathsCons(rows);
      LookupIsRow(rows[1..], path);
      if UniquePaths(rows) {
        UniqueCons(rows);
        assert forall row :: row in rows ==> row == rows[0] || row in rows[1..];
        assert forall row :: row in rows[1..] ==> row.path in Paths(rows[1..]);
      }
    }
  }

  lemma {:induction false} LookupAppend(rows: seq<Row>, row: Row, path: string)
    ensures Lookup(rows + [row], path) ==
            if path in Paths(rows) then Lookup(rows, path) else if path == row.path then Some(row.state) else None
  {
    LookupIsRow(rows, path);
    if rows == [] {
      assert rows + [row] == [row];
    } else {
      PathsCons(rows);
      assert (rows + [row])[1..] == rows[1..] + [row];
      LookupAppend(rows[1..], row, path);
    }
  }

  lemma {:induction false} LookupSetMissing(rows: seq<Row>, marked: string, path: string)
    ensures Lookup(SetMissing(rows, marked), path) ==
            if path == marked && path in Paths(rows) then Some(Missing) else Lookup(rows, path)
  {
    if rows != [] {
      PathsCons(rows);
      assert SetMissing(rows, marked)[1..] == SetMissing(rows[1..], marked);
      LookupSetMissing(rows[1..], marked, path);
    }
  }

  lemma {:induction false} InsertKeepsUnique(rows: seq<Row>, row: Row)
    requires UniquePaths(rows)
    ensures UniquePaths(Insert(rows, row)) && Paths(Insert(rows, row)) == Paths(rows) + {row.path}
  {
    assert forall r :: r in rows + [row] <==> r in rows || r == row;
    assert forall i :: 0 <= i < |rows| ==> rows[i].path in Paths(rows);
  }

  lemma {:induction false} ApplyKeepsUnique(rows: seq<Row>, world: World, repair: Repair)
    requires UniquePaths(rows)
    ensures UniquePaths(Apply(rows, world, repair)) && Paths(rows) <= Paths(Apply(rows, world, repair))
  {
    match repair
    case MarkMissing(path) => SetMissingFacts(rows, path);
    case Recover(path) => if Recoverable(world, path) { InsertKeepsUnique(rows, RecoveredRow(world, path)); }
  }

  lemma {:induction false} MarksAppend(a: seq<Row>, b: seq<Row>, world: World)
    ensures Marks(a + b, world) == Marks(a, world) + Marks(b, world)
  {
    if a == [] {
      assert a + b == b;
    } else {
      assert (a + b)[1..] == a[1..] + b;
      MarksAppend(a[1..], b, world);
    }
  }

  lemma {:induction false} RecoveriesAppend(known: set<string>, world: World, a: seq<string>, b: seq<string>)
    ensures Recoveries(known, world, a + b) == Recoveries(known, world, a) + Recoveries(known, world, b)
  {
    if a == [] {
      assert a + b == b;
    } else {
      assert (a + b)[1..] == a[1..] + b;
      RecoveriesAppend(known, world, a[1..], b);
    }
  }

  lemma {:induction false} MarksNameStaleRows(rows: seq<Row>, world: World)
    ensures forall r :: r in Marks(rows, world) ==>
              r.MarkMissing? && exists row :: row in rows && row.path == r.path && Stale(world, row)
    ensures forall row :: row in rows && Stale(world, row) ==> MarkMissing(row.path) in Marks(rows, world)
  {
    if rows != [] {
      MarksNameStaleRows(rows[1..], world);
      assert forall row :: row in rows <==> row == rows[0] || row in rows[1..];
    }
  }

  lemma {:induction false} RecoveriesNameFiles(known: set<string>, world: World, listing: seq<string>)
    ensures forall r :: r in Recoveries(known, world, listing) ==>
              r.Recover? && r.path in listing && r.path !in known && Recoverable(world, r.path)
    ensures forall p :: p in listing && p !in known && Recoverable(world, p) ==>
            Recover(p) in Recoveries(known, world, listing)
  {
    if listing != [] {
      RecoveriesNameFiles(known, world, listing[1..]);
      assert forall p :: p in listing <==> p == listing[0] || p in listing[1..];
    }
  }

  lemma {:induction false} MarkingRemovesTheFirstMark(rows: seq<Row>, world: World)
    requires UniquePaths(rows) && Marks(rows, world) != []
    ensures Marks(SetMissing(rows, Marks(rows, world)[0].path), world) == Marks(rows, world)[1..]
  {
    UniqueCons(rows);
    var path := Marks(rows, world)[0].path;
    var tail := rows[1..];
    assert SetMissing(rows, path)[1..] == SetMissing(tail, path);
    MarksNameStaleRows(tail, world);
    if Stale(world, rows[0]) {
      SetMissingFacts(tail, path);
    } else {
      assert Marks(tail, world)[0] in Marks(tail, world);
      MarkingRemovesTheFirstMark(tail, world);
    }
  }

  lemma {:induction false} KnownFilesAreSkipped(known: set<string>, path: string, world: World, listing: seq<string>)
    requires path !in listing
    ensures Recoveries(known + {path}, world, listing) == Recoveries(known, world, listing)
  {
    if listing != [] {
      assert listing[0] in listing && forall p :: p in listing[1..] ==> p in listing;
      KnownFilesAreSkipped(known, path, world, listing[1..]);
    }
  }

  lemma {:induction false} RecoveringRemovesTheFirstRecovery(known: set<string>, world: World, listing: seq<string>)
    requires NoRepeats(listing) && Recoveries(known, world, listing) != []
    ensures Recoveries(known + {Recoveries(known, world, listing)[0].path}, world, listing)
         == Recoveries(known, world, listing)[1..]
  {
    var path, tail := Recoveries(known, world, listing)[0].path, listing[1..];
    RecoveriesNameFiles(known, world, tail);
    if listing[0] !in known && Recoverable(world, listing[0]) {
      assert listing[0] !in tail;
      KnownFilesAreSkipped(known, path, world, tail);
    } else {
      assert Recoveries(known, world, tail)[0] in Recoveries(known, world, tail);
      RecoveringRemovesTheFirstRecovery(known, world, tail);
    }
  }

  lemma {:induction false} FirstMarkIsAMark(rows: seq<Row>, world: World)
    requires Marks(rows, world) != []
    ensures Marks(rows, world)[0].MarkMissing?
  {
    MarksNameStaleRows(rows, world);
    assert Marks(rows, world)[0] in Marks(rows, world);
  }

  lemma {:induction false} FirstMarkIsRemoved(rows: seq<Row>, world: World)
    requires UniquePaths(rows) && Marks(rows, world) != []
    ensures Repairs(Apply(rows, world, Marks(rows, world)[0]), world) == Repairs(rows, world)[1..]
  {
    var marks, recoveries := Marks(rows, world), Recoveries(Paths(rows), world, world.listing);
    FirstMarkIsAMark(rows, world);
    var after := SetMissing(rows, marks[0].path);
    MarkingRemovesTheFirstMark(rows, world);
    SetMissingKeepsPaths(rows, marks[0].path);
    assert Repairs(after, world) == marks[1..] + recoveries;
    assert (marks + recoveries)[1..] == marks[1..] + recoveries;
  }

  lemma {:induction false} FirstRecoveryIsMade(rows: seq<Row>, world: World)
    requires ValidWorld(world) && UniquePaths(rows)
    requires Marks(rows, world) == [] && Recoveries(Paths(rows), world, world.listing) != []
    ensures var recoveries := Recoveries(Paths(rows), world, world.listing);
            Repairs(Apply(rows, world, recoveries[0]), world) == recoveries[1..]
  {
    var recoveries := Recoveries(Paths(rows), world, world.listing);
    RecoveriesNameFiles(Paths(rows), world, world.listing);
    assert recoveries[0] in recoveries;
    var row := RecoveredRow(world, recoveries[0].path);
    InsertKeepsUnique(rows, row);
    MarksAppend(rows, [row], world);
    assert [row][1..] == [] && Marks([row][1..], world) == [];
    RecoveringRemovesTheFirstRecovery(Paths(rows), world, world.listing);
  }

  /** Making the first outstanding repair leaves exactly the others outstanding, in the same order. */
  lemma {:induction false} FirstRepairIsRemoved(rows: seq<Row>, world: World)
    requires ValidWorld(world) && UniquePaths(rows) && Repairs(rows, world) != []
    ensures Repairs(Apply(rows, world, Repairs(rows, world)[0]), world) == Repairs(rows, world)[1..]
  {
    if Marks(rows, world) != [] {
      FirstMarkIsRemoved(rows, world);
    } else {
      FirstRecoveryIsMade(rows, world);
    }
  }

  /** Making the first outstanding repair leaves the others. */
  lemma {:induction false} OneRepairLeavesTheRest(rows: seq<Row>, world: World, repairs: seq<Repair>)
    requires ValidWorld(world) && UniquePaths(rows) && repairs == Repairs(rows, world) && repairs != []
    ensures var after := Apply(rows, world, repairs[0]);
            UniquePaths(after) && Paths(rows) <= Paths(after) && Repairs(after, world) == repairs[1..]
  {
    FirstRepairIsRemoved(rows, world);
    ApplyKeepsUnique(rows, world, repairs[0]);
  }

  lemma {:induction false} SplitBefore(repairs: seq<Repair>, n: nat)
    requires 0 < n <= |repairs|
    ensures repairs[..n][..n - 1] == repairs[..n - 1] && repairs[..n][n - 1] == repairs[n - 1] == repairs[n - 1..][0]
    ensures repairs[n - 1..][1..] == repairs[n..]
  {}

  lemma {:induction false} ApplyOneMore(rows: seq<Row>, world: World, repairs: seq<Repair>, n: nat)
    requires 0 < n <= |repairs|
    ensures ApplyAll(rows, world, repairs[..n]) == Apply(ApplyAll(rows, world, repairs[..n - 1]), world, repairs[n - 1])
  {
    SplitBefore(repairs, n);
  }

  /** A prefix of the repairs leaves exactly the rest outstanding. */
  lemma {:induction false} PrefixLeavesTheRest(rows: seq<Row>, world: World, n: nat)
    requires ValidWorld(world) && UniquePaths(rows) && n <= |Repairs(rows, world)|
    ensures var repairs := Repairs(rows, world);
            var after := ApplyAll(rows, world, repairs[..n]);
            UniquePaths(after) && Paths(rows) <= Paths(after) && Repairs(after, world) == repairs[n..]
  {
    var repairs := Repairs(rows, world);
    if n == 0 {
      assert repairs[..0] == [];
    } else {
      PrefixLeavesTheRest(rows, world, n - 1);
      SplitBefore(repairs, n);
      ApplyOneMore(rows, world, repairs, n);
      OneRepairLeavesTheRest(ApplyAll(rows, world, repairs[..n - 1]), world, repairs[n - 1..]);
    }
  }

  lemma {:induction false} ApplyAllAppend(rows: seq<Row>, world: World, a: seq<Repair>, b: seq<Repair>)
    ensures ApplyAll(rows, world, a + b) == ApplyAll(ApplyAll(rows, world, a), world, b)
  {
    if b == [] {
      assert a + b == a;
    } else {
      assert (a + b)[..|a + b| - 1] == a + b[..|b| - 1];
      ApplyAllAppend(rows, world, a, b[..|b| - 1]);
    }
  }

  lemma {:induction false} RestFinishesTheRun(rows: seq<Row>, world: World, n: nat)
    requires ValidWorld(world) && UniquePaths(rows) && n <= |Repairs(rows, world)|
    ensures Reconciled(ApplyAll(rows, world, Repairs(rows, world)[..n]), world, None) == Reconciled(rows, world, None)
  {
    var repairs := Repairs(rows, world);
    PrefixLeavesTheRest(rows, world, n);
    ApplyAllAppend(rows, world, repairs[..n], repairs[n..]);
    assert repairs[..n] + repairs[n..] == repairs;
    assert repairs[..|repairs|] == repairs && repairs[n..][..|repairs[n..]|] == repairs[n..];
  }

  /** Crash recovery: a crashed run makes progress, and whatever run comes after it makes exactly the
      repairs that were left, so a complete run ends in the very rows of an uninterrupted one. */
  lemma {:induction false} CrashedRunResumes(rows: seq<Row>, world: World, crashAfter: Option<int>)
    requires ValidWorld(world) && UniquePaths(rows)
    ensures var repairs := Repairs(rows, world);
            var after := Reconciled(rows, world, crashAfter);
            && Repairs(after, world) == repairs[RunLength(|repairs|, crashAfter)..]
            && (RunCrashes(|repairs|, crashAfter) ==> |Repairs(after, world)| < |repairs|)
            && UniquePaths(after)
            && Reconciled(after, world, None) == Reconciled(rows, world, None)
  {
    var n := RunLength(|Repairs(rows, world)|, crashAfter);
    PrefixLeavesTheRest(rows, world, n);
    RestFinishesTheRun(rows, world, n);
  }

  function AfterRuns(rows: seq<Row>, world: World, crashes: seq<Option<int>>): seq<Row> {
    if crashes == [] then rows
    else Reconciled(AfterRuns(rows, world, crashes[..|crashes| - 1]), world, crashes[|crashes| - 1])
  }

  /** Any finite sequence of runs, each crashed anywhere or complete, followed by one complete run gives
      the rows of one uninterrupted run, and a further run changes nothing. */
  lemma {:induction false} CrashesConverge(rows: seq<Row>, world: World, crashes: seq<Option<int>>)
    requires ValidWorld(world) && UniquePaths(rows)
    ensures var done := AfterRuns(rows, world, crashes + [None]);
            && UniquePaths(AfterRuns(rows, world, crashes))
            && done == Reconciled(rows, world, None)
            && Repairs(done, world) == [] && Reconciled(done, world, None) == done
  {
    assert (crashes + [None])[..|crashes|] == crashes;
    if crashes == [] {
      CrashedRunResumes(rows, world, None);
    } else {
      var init := crashes[..|crashes| - 1];
      CrashesConverge(rows, world, init);
      assert (init + [None])[..|init|] == init;
      CrashedRunResumes(AfterRuns(rows, world, init), world, crashes[|crashes| - 1]);
      CrashedRunResumes(AfterRuns(rows, world, crashes), world, None);
    }
  }

  // ----- hooks and reconcilers interleaved -----

  datatype Service = Service(rows: seq<Row>, dropNext: bool)

  /** `Committed` is one transaction of any reconciler process, running or later crashed. */
  datatype Event =
    | HookPosted(path: string, facts: Facts)
    | DropArmed
    | Ran(crashAfter: Option<int>)
    | Committed(repair: Repair)

  predicate Cataloguable(path: string) {
    !(PREBUFFER <= path)
  }

  function Step(world: World, s: Service, e: Event): Service {
    match e
    case HookPosted(path, facts) =>
      if s.dropNext then s.(dropNext := false)
      else if Cataloguable(path) then s.(rows := Insert(s.rows, Catalogued(path, Hook, facts)))
      else s
    case DropArmed => s.(dropNext := true)
    case Ran(crashAfter) => s.(rows := Reconciled(s.rows, world, crashAfter))
    case Committed(repair) => s.(rows := Apply(s.rows, world, repair))
  }

  /** A process commits what it read from the catalog and the disk: it marks a live row whose file does
      not exist, or recovers a listed file. */
  predicate Justified(world: World, s: Service, e: Event) {
    e.Committed? ==>
      match e.repair
      case MarkMissing(path) => path !in world.existing && Lookup(s.rows, path) != Some(Deleted)
      case Recover(path) => path in world.listing
  }

  function Play(world: World, s: Service, events: seq<Event>): Service {
    if events == [] then s else Step(world, Play(world, s, events[..|events| - 1]), events[|events| - 1])
  }

  predicate JustifiedRun(world: World, s: Service, events: seq<Event>) {
    forall i :: 0 <= i < |events| ==> Justified(world, Play(world, s, events[..i]), events[i])
  }

  function Delivers(s: Service, e: Event): set<string> {
    if e.HookPosted? && !s.dropNext && Cataloguable(e.path) then {e.path} else {}
  }

  /** The paths whose hook was neither dropped nor a prebuffer fragment. */
  function Delivered(world: World, s: Service, events: seq<Event>): set<string> {
    if events == [] then {}
    else
      var init, e := events[..|events| - 1], events[|events| - 1];
      Delivered(world, s, init)
      + Delivers(Play(world, s, init), e)
  }

  /** What a path's state must end up as: decided by its first state, whether any hook for it was
      delivered, and the disk. Order, repetition and crashes do not occur in it. */
  function Expected(world: World, before: Option<LocationState>, delivered: bool, path: string): Option<LocationState> {
    match before
    case Some(state) => Some(if state == Available && path !in world.existing then Missing else state)
    case None =>
      if delivered then Some(if path in world.existing then Available else Missing)
      else if path in world.listing && Recoverable(world, path) then Some(Available)
      else None
  }

  function Goal(world: World, rows: seq<Row>, path: string): Option<LocationState> {
    Expected(world, Lookup(rows, path), false, path)
  }

  lemma {:induction false} RepairKeepsGoal(world: World, s: Service, repair: Repair, path: string)
    requires ValidWorld(world) && UniquePaths(s.rows) && Justified(world, s, Committed(repair))
    ensures Goal(world, Apply(s.rows, world, repair), path) == Goal(world, s.rows, path)
  {
    LookupIsRow(s.rows, path);
    match repair
    case MarkMissing(marked) => LookupSetMissing(s.rows, marked, path);
    case Recover(file) =>
      if Recoverable(world, file) { LookupAppend(s.rows, RecoveredRow(world, file), path); }
  }

  lemma {:induction false} OutstandingIsJustified(world: World, rows: seq<Row>, repair: Repair)
    requires UniquePaths(rows) && repair in Repairs(rows, world)
    ensures Justified(world, Service(rows, false), Committed(repair))
  {
    MarksNameStaleRows(rows, world);
    RecoveriesNameFiles(Paths(rows), world, world.listing);
    if repair in Marks(rows, world) {
      LookupIsRow(rows, repair.path);
    }
  }

  lemma {:induction false} OutstandingKeepsGoal(world: World, rows: seq<Row>, repair: Repair, path: string)
    requires ValidWorld(world) && UniquePaths(rows) && repair in Repairs(rows, world)
    ensures Goal(world, Apply(rows, world, repair), path) == Goal(world, rows, path)
  {
    OutstandingIsJustified(world, rows, repair);
    RepairKeepsGoal(world, Service(rows, false), repair, path);
  }

  lemma {:induction false} NextKeepsGoal(world: World, rows: seq<Row>, n: nat, path: string)
    requires ValidWorld(world) && UniquePaths(rows) && n < |Repairs(rows, world)|
    ensures var repairs := Repairs(rows, world);
            Goal(world, ApplyAll(rows, world, repairs[..n + 1]), path)
            == Goal(world, ApplyAll(rows, world, repairs[..n]), path)
  {
    var repairs := Repairs(rows, world);
    var before := ApplyAll(rows, world, repairs[..n]);
    PrefixLeavesTheRest(rows, world, n);
    assert repairs[..n + 1][..n] == repairs[..n] && repairs[n] == Repairs(before, world)[0];
    OutstandingKeepsGoal(world, before, repairs[n], path);
  }

  lemma {:induction false} RunKeepsGoal(world: World, rows: seq<Row>, n: nat, path: string)
    requires ValidWorld(world) && UniquePaths(rows) && n <= |Repairs(rows, world)|
    ensures Goal(world, ApplyAll(rows, world, Repairs(rows, world)[..n]), path) == Goal(world, rows, path)
  {
    if n > 0 {
      RunKeepsGoal(world, rows, n - 1, path);
      NextKeepsGoal(world, rows, n - 1, path);
    }
  }

  /** With nothing outstanding, every path is where it must be. */
  lemma {:induction false} NothingOutstanding(world: World, rows: seq<Row>, path: string)
    requires UniquePaths(rows) && Repairs(rows, world) == []
    ensures Lookup(rows, path) == Goal(world, rows, path)
  {
    LookupIsRow(rows, path);
    MarksNameStaleRows(rows, world);
    RecoveriesNameFiles(Paths(rows), world, world.listing);
    assert Marks(rows, world) == [] && Recoveries(Paths(rows), world, world.listing) == [];
    if path in Paths(rows) {
      var row :| row in rows && row.path == path;
      assert !Stale(world, row);
    }
  }

  /** A delivered hook settles a path that had no other fate. */
  function WithDelivery(world: World, goal: Option<LocationState>, path: string): Option<LocationState> {
    if goal.Some? then goal else Some(if path in world.existing then Available else Missing)
  }

  lemma {:induction false} HookMovesGoal(world: World, rows: seq<Row>, row: Row, path: string)
    requires ValidWorld(world) && UniquePaths(rows) && row.state == Available
    ensures var goal := Goal(world, rows, path);
            Goal(world, Insert(rows, row), path) == if path == row.path then WithDelivery(world, goal, path) else goal
  {
    LookupIsRow(rows, path);
    LookupAppend(rows, row, path);
  }

  lemma {:induction false} StepMovesGoal(world: World, s: Service, e: Event, path: string)
    requires ValidWorld(world) && UniquePaths(s.rows) && Justified(world, s, e)
    ensures var after, goal := Step(world, s, e), Goal(world, s.rows, path);
            && UniquePaths(after.rows)
            && Goal(world, after.rows, path) == if path in Delivers(s, e) then WithDelivery(world, goal, path) else goal
  {
    match e
    case HookPosted(posted, facts) =>
      var row := Catalogued(posted, Hook, facts);
      InsertKeepsUnique(s.rows, row);
      HookMovesGoal(world, s.rows, row, path);
    case DropArmed =>
    case Ran(crashAfter) =>
      var n := RunLength(|Repairs(s.rows, world)|, crashAfter);
      PrefixLeavesTheRest(s.rows, world, n);
      RunKeepsGoal(world, s.rows, n, path);
    case Committed(repair) =>
      ApplyKeepsUnique(s.rows, world, repair);
      RepairKeepsGoal(world, s, repair, path);
  }

  lemma {:induction false} GoalFollowsDelivery(world: World, s: Service, events: seq<Event>, path: string)
    requires ValidWorld(world) && UniquePaths(s.rows) && JustifiedRun(world, s, events)
    ensures var after := Play(world, s, events);
            && UniquePaths(after.rows)
            && Goal(world, after.rows, path)
            == Expected(world, Lookup(s.rows, path), path in Delivered(world, s, events), path)
  {
    if events != [] {
      var n := |events| - 1;
      var init := events[..n];
      assert forall i :: 0 <= i < n ==> init[..i] == events[..i] && init[i] == events[i];
      GoalFollowsDelivery(world, s, init, path);
      assert Justified(world, Play(world, s, events[..n]), events[n]);
      StepMovesGoal(world, Play(world, s, init), events[n], path);
    }
  }

  /** Confluence: on a fixed disk, after any interleaving of hooks, drops, reconciler transactions and
      crashed runs, one complete run puts every path in the state its first state and the delivered
      hooks determine. No path is ever catalogued twice. */
  lemma {:induction false} CatalogConverges(world: World, s: Service, events: seq<Event>, path: string)
    requires ValidWorld(world) && UniquePaths(s.rows) && JustifiedRun(world, s, events)
    ensures var done := Step(world, Play(world, s, events), Ran(None));
            && UniquePaths(Play(world, s, events).rows) && UniquePaths(done.rows)
            && Lookup(done.rows, path)
            == Expected(world, Lookup(s.rows, path), path in Delivered(world, s, events), path)
  {
    GoalFollowsDelivery(world, s, events, path);
    var rows := Play(world, s, events).rows;
    CrashedRunResumes(rows, world, None);
    RunKeepsGoal(world, rows, |Repairs(rows, world)|, path);
    NothingOutstanding(world, Reconciled(rows, world, None), path);
  }

  /** Uniqueness needs no assumption about the reconcilers: every transaction, justified or stale, keeps it. */
  lemma {:induction false} NeverCataloguedTwice(world: World, s: Service, events: seq<Event>)
    requires ValidWorld(world) && UniquePaths(s.rows)
    ensures UniquePaths(Play(world, s, events).rows)
  {
    if events != [] {
      var init, e := events[..|events| - 1], events[|events| - 1];
      NeverCataloguedTwice(world, s, init);
      var before := Play(world, s, init);
      match e
      case HookPosted(path, facts) => InsertKeepsUnique(before.rows, Catalogued(path, Hook, facts));
      case DropArmed =>
      case Ran(crashAfter) => PrefixLeavesTheRest(before.rows, world,
        RunLength(|Repairs(before.rows, world)|, crashAfter));
      case Committed(repair) => ApplyKeepsUnique(before.rows, world, repair);
    }
  }

  // ----- what rows hold -----

  /** Rows stay in their places with what they hold; only their state may become MISSING. */
  predicate Extends(before: seq<Row>, after: seq<Row>) {
    && |before| <= |after|
    && forall i :: 0 <= i < |before| ==>
         && after[i].path == before[i].path && after[i].source == before[i].source
         && after[i].stream == before[i].stream && after[i].start == before[i].start
         && after[i].end == before[i].end && after[i].duration == before[i].duration
         && (after[i].state == before[i].state || after[i].state == Missing)
  }

  /** A reconciled row holds what inspecting its file yields. */
  predicate Inspected(world: World, row: Row) {
    && row.source == Reconcile && row.duration > 0.0 && row.end == row.start + row.duration
    && world.inspect(row.path) == Media(Facts(row.stream, row.start, row.duration))
  }

  /** A hook's row holds what the hook said. */
  predicate Announced(s: Service, e: Event, row: Row) {
    && row.source == Hook && !s.dropNext && !(PREBUFFER <= row.path) && row.end == row.start + row.duration
    && e == HookPosted(row.path, Facts(row.stream, row.start, row.duration))
  }

  lemma {:induction false} ApplyExtends(world: World, rows: seq<Row>, repair: Repair)
    ensures var after := Apply(rows, world, repair);
            && Extends(rows, after)
            && forall i :: |rows| <= i < |after| ==> Inspected(world, after[i])
  {
    match repair
    case MarkMissing(path) => SetMissingAt(rows, path);
    case Recover(path) =>
  }

  lemma {:induction false} ApplyAllExtends(world: World, rows: seq<Row>, repairs: seq<Repair>)
    ensures var after := ApplyAll(rows, world, repairs);
            && Extends(rows, after)
            && forall i :: |rows| <= i < |after| ==> Inspected(world, after[i])
  {
    if repairs != [] {
      var init := repairs[..|repairs| - 1];
      ApplyAllExtends(world, rows, init);
      ApplyExtends(world, ApplyAll(rows, world, init), repairs[|repairs| - 1]);
    }
  }

  lemma {:induction false} ReconciledExtends(world: World, rows: seq<Row>, crashAfter: Option<int>)
    ensures var after := Reconciled(rows, world, crashAfter);
            && Extends(rows, after)
            && forall i :: |rows| <= i < |after| ==> Inspected(world, after[i])
  {
    var repairs := Repairs(rows, world);
    ApplyAllExtends(world, rows, repairs[..RunLength(|repairs|, crashAfter)]);
  }

  lemma {:induction false} StepExtends(world: World, s: Service, e: Event)
    ensures var after := Step(world, s, e).rows;
            && Extends(s.rows, after)
            && forall i :: |s.rows| <= i < |after| ==> Inspected(world, after[i]) || Announced(s, e, after[i])
  {
    match e
    case HookPosted(path, facts) =>
    case DropArmed =>
    case Ran(crashAfter) => ReconciledExtends(world, s.rows, crashAfter);
    case Committed(repair) => ApplyExtends(world, s.rows, repair);
  }

  /** Some event of the run is the hook that announced the row. */
  predicate AnnouncedIn(world: World, s: Service, events: seq<Event>, row: Row) {
    exists i :: 0 <= i < |events| && Announced(Play(world, s, events[..i]), events[i], row)
  }

  lemma {:induction false} AnnouncedStays(world: World, s: Service, events: seq<Event>, before: Row, row: Row)
    requires events != [] && AnnouncedIn(world, s, events[..|events| - 1], before)
    requires row.(state := before.state) == before
    ensures AnnouncedIn(world, s, events, row)
  {
    var init := events[..|events| - 1];
    var i :| 0 <= i < |init| && Announced(Play(world, s, init[..i]), init[i], before);
    assert init[..i] == events[..i];
  }

  lemma {:induction false} DropIsPending(world: World, s: Service, events: seq<Event>)
    ensures Play(world, s, events).dropNext
       <==> || (s.dropNext && forall j :: 0 <= j < |events| ==> !events[j].HookPosted?)
            || exists i :: 0 <= i < |events| && events[i].DropArmed?
                           && forall j :: i < j < |events| ==> !events[j].HookPosted?
  {
    if events != [] {
      var n, before := |events| - 1, events[..|events| - 1];
      DropIsPending(world, s, before);
      assert forall j :: 0 <= j < n ==> before[j] == events[j];
      if events[n].DropArmed? {
        assert Play(world, s, events).dropNext;
      } else if !events[n].HookPosted? {
        if exists i :: 0 <= i < n && before[i].DropArmed? && forall j :: i < j < n ==> !before[j].HookPosted? {
          var i :| 0 <= i < n && before[i].DropArmed? && forall j :: i < j < n ==> !before[j].HookPosted?;
          assert events[i].DropArmed? && forall j :: i < j <= n ==> !events[j].HookPosted?;
        }
      }
    }
  }

  /** A hook is dropped exactly when dropping was armed since the hook before it, and then it changes no row;
      any other hook of a new path outside the prebuffer is catalogued. */
  lemma {:induction false} HookIsDroppedExactly(world: World, s: Service, events: seq<Event>, path: string,
      facts: Facts)
    requires !s.dropNext
    ensures var dropped := exists i :: 0 <= i < |events| && events[i].DropArmed?
                                       && forall j :: i < j < |events| ==> !events[j].HookPosted?;
            var before, after := Play(world, s, events).rows, Play(world, s, events + [HookPosted(path, facts)]).rows;
            && (dropped ==> after == before)
            && (!dropped ==> (after != before <==> !("/prebuffer/" <= path) && path !in Paths(before)))
  {
    DropIsPending(world, s, events);
    assert (events + [HookPosted(path, facts)])[..|events|] == events;
  }

  /** Over any run, with every transaction a reconciler may commit, justified or stale: the rows there were
      stay as they are but for becoming MISSING, and every other row holds what its delivered hook said or
      what inspecting its file yields. */
  lemma {:induction false} RowsTellTheTruth(world: World, s: Service, events: seq<Event>)
    ensures var rows := Play(world, s, events).rows;
            && Extends(s.rows, rows)
            && forall i :: |s.rows| <= i < |rows| ==>
                 Inspected(world, rows[i]) || AnnouncedIn(world, s, events, rows[i])
  {
    if events != [] {
      var n := |events| - 1;
      var before, after := Play(world, s, events[..n]), Play(world, s, events).rows;
      RowsTellTheTruth(world, s, events[..n]);
      StepExtends(world, before, events[n]);
      forall i | |s.rows| <= i < |after| ensures Inspected(world, after[i]) || AnnouncedIn(world, s, events, after[i]) {
        if i < |before.rows| {
          if AnnouncedIn(world, s, events[..n], before.rows[i]) {
            AnnouncedStays(world, s, events, before.rows[i], after[i]);
          }
        }
      }
    }
  }
}
