/** The hook endpoint and the two reconcilers as a stateful service, refining `Reconciliation`. */
module CatalogService {
  import opened Wrappers
  import opened Reconciliation

  datatype Report = Report(missing: seq<string>, recovered: seq<string>, ambiguous: seq<string>, errors: seq<string>)

  datatype Triage = AlreadyKnown | Recovered | Unclear | Failed

  /** What a scan does with a listed file, given the paths it knows. */
  function TriageOf(known: set<string>, world: World, path: string): Triage {
    if path in known then AlreadyKnown
    else if Recoverable(world, path) then Recovered
    else if world.inspect(path).ProbeFailed? then Failed
    else Unclear
  }

  function Record(report: Report, triage: Triage, path: string): Report {
    match triage
    case AlreadyKnown => report
    case Recovered => report.(recovered := report.recovered + [path])
    case Unclear => report.(ambiguous := report.ambiguous + [path])
    case Failed => report.(errors := report.errors + [path])
  }

  /** The report of a complete scan. */
  function Scan(known: set<string>, world: World, listing: seq<string>): Report {
    if listing == [] then Report([], [], [], [])
    else
      var path := listing[|listing| - 1];
      Record(Scan(known, world, listing[..|listing| - 1]), TriageOf(known, world, path), path)
  }

  lemma {:induction false} ScanStep(known: set<string>, world: World, listing: seq<string>, j: nat)
    requires j < |listing|
    ensures Scan(known, world, listing[..j + 1])
         == Record(Scan(known, world, listing[..j]), TriageOf(known, world, listing[j]), listing[j])
  {
    assert listing[..j + 1][..j] == listing[..j];
  }

  /** What a complete scan reports: each unknown listed file once, in order, by what inspecting it yields. */
  lemma {:induction false} ScanIsExact(known: set<string>, world: World, listing: seq<string>, path: string)
    ensures var report := Scan(known, world, listing);
            && report.missing == []
            && (path in report.recovered <==>
                  path in listing && path !in known && world.inspect(path).Media?
                  && world.inspect(path).facts.duration > 0.0)
            && (path in report.errors <==> path in listing && path !in known && world.inspect(path).ProbeFailed?)
            && (path in report.ambiguous <==>
                  path in listing && path !in known
                  && (world.inspect(path).NoIdentity?
                      || (world.inspect(path).Media? && world.inspect(path).facts.duration <= 0.0)))
  {
    if listing != [] {
      ScanIsExact(known, world, listing[..|listing| - 1], path);
      assert listing == listing[..|listing| - 1] + [listing[|listing| - 1]];
    }
  }

  /** The service's own reconciler has one list for every file it could not recover. */
  datatype ServiceReport = ServiceReport(scanned: nat, recovered: seq<string>, errors: seq<string>)

  function Note(report: ServiceReport, triage: Triage, path: string): ServiceReport {
    var counted := report.(scanned := report.scanned + 1);
    match triage
    case AlreadyKnown => counted
    case Recovered => counted.(recovered := report.recovered + [path])
    case Unclear => counted.(errors := report.errors + [path])
    case Failed => counted.(errors := report.errors + [path])
  }

  function ServiceScan(known: set<string>, world: World, listing: seq<string>): ServiceReport {
    if listing == [] then ServiceReport(0, [], [])
    else
      var path := listing[|listing| - 1];
      Note(ServiceScan(known, world, listing[..|listing| - 1]), TriageOf(known, world, path), path)
  }

  lemma {:induction false} ServiceScanStep(known: set<string>, world: World, listing: seq<string>, j: nat)
    requires j < |listing|
    ensures ServiceScan(known, world, listing[..j + 1])
         == Note(ServiceScan(known, world, listing[..j]), TriageOf(known, world, listing[j]), listing[j])
  {
    assert listing[..j + 1][..j] == listing[..j];
  }

  lemma {:induction false} ServiceScanIsExact(known: set<string>, world: World, listing: seq<string>, path: string)
    ensures var report := ServiceScan(known, world, listing);
            && report.scanned == |listing|
            && (path in report.recovered <==>
                  path in listing && path !in known && world.inspect(path).Media?
                  && world.inspect(path).facts.duration > 0.0)
            && (path in report.errors <==>
                  path in listing && path !in known
                  && !(world.inspect(path).Media? && world.inspect(path).facts.duration > 0.0))
  {
    if listing != [] {
      ServiceScanIsExact(known, world, listing[..|listing| - 1], path);
      assert listing == listing[..|listing| - 1] + [listing[|listing| - 1]];
    }
  }

  function RepairPaths(repairs: seq<Repair>): (paths: seq<string>)
    ensures |paths| == |repairs|
  {
    if repairs == [] then [] else RepairPaths(repairs[..|repairs| - 1]) + [repairs[|repairs| - 1].path]
  }

  lemma {:induction false} RepairPathsSnoc(repairs: seq<Repair>, repair: Repair)
    ensures RepairPaths(repairs + [repair]) == RepairPaths(repairs) + [repair.path]
  {
    assert (repairs + [repair])[..|repairs|] == repairs;
  }

  lemma {:induction false} RepairPathsAppend(a: seq<Repair>, b: seq<Repair>)
    ensures RepairPaths(a + b) == RepairPaths(a) + RepairPaths(b)
  {
    if b == [] {
      assert a + b == a;
    } else {
      assert (a + b)[..|a + b| - 1] == a + b[..|b| - 1];
      RepairPathsAppend(a, b[..|b| - 1]);
    }
  }

  /** What a run leaves and reports: the first outstanding repairs its crash setting allows, and a whole
      scan unless it crashed, which it does exactly when the setting is reached. */
  predicate RunDone(start: seq<Row>, world: World, crashAfter: Option<int>, crashed: bool, report: Report,
      rows: seq<Row>) {
    var outstanding := Repairs(start, world);
    && rows == Reconciled(start, world, crashAfter)
    && (crashed <==> RunCrashes(|outstanding|, crashAfter))
    && report.missing + report.recovered == RepairPaths(outstanding[..RunLength(|outstanding|, crashAfter)])
    && (!crashed ==> report.(missing := []) == Scan(Paths(start), world, world.listing))
  }

  predicate CanMark(rows: seq<Row>, path: string) {
    exists row :: row in rows && row.path == path && row.state != Missing
  }

  /** A run that is to crash stops as soon as it has made enough mutations, and goes on before that. */
  predicate Stops(changes: nat, crashAfter: Option<int>) {
    crashAfter.Some? && changes >= 1 && changes >= crashAfter.value && (changes > 1 ==> changes == crashAfter.value)
  }

  predicate GoesOn(changes: nat, crashAfter: Option<int>) {
    crashAfter.Some? ==> changes == 0 || changes < crashAfter.value
  }

  lemma {:induction false} MarksStep(rows: seq<Row>, world: World, i: nat)
    requires i < |rows|
    ensures Marks(rows[..i + 1], world)
         == Marks(rows[..i], world) + (if Stale(world, rows[i]) then [MarkMissing(rows[i].path)] else [])
    ensures Marks(rows[..i + 1], world) <= Repairs(rows, world)
  {
    assert rows[..i + 1] == rows[..i] + [rows[i]] && [rows[i]][1..] == [];
    MarksAppend(rows[..i], [rows[i]], world);
    assert rows == rows[..i + 1] + rows[i + 1..];
    MarksAppend(rows[..i + 1], rows[i + 1..], world);
  }

  lemma {:induction false} OneMore(rows: seq<Row>, world: World, made: seq<Repair>, repair: Repair)
    requires ValidWorld(world) && UniquePaths(rows) && made + [repair] <= Repairs(rows, world)
    ensures var now := ApplyAll(rows, world, made);
            && ApplyAll(rows, world, made + [repair]) == Apply(now, world, repair)
            && UniquePaths(now) && Repairs(now, world) != [] && Repairs(now, world)[0] == repair
  {
    assert (made + [repair])[..|made|] == made == Repairs(rows, world)[..|made|];
    assert Repairs(rows, world)[|made|] == (made + [repair])[|made|];
    PrefixLeavesTheRest(rows, world, |made|);
  }

  lemma {:induction false} OutstandingFacts(rows: seq<Row>, world: World, repair: Repair)
    requires repair in Repairs(rows, world)
    ensures repair.MarkMissing? ==> exists row :: row in rows && row.path == repair.path && row.state != Missing
    ensures repair.Recover? ==> repair.path !in Paths(rows)
  {
    MarksNameStaleRows(rows, world);
    RecoveriesNameFiles(Paths(rows), world, world.listing);
  }

  lemma {:induction false} MarkComesNext(rows: seq<Row>, world: World, made: seq<Repair>, path: string)
    requires ValidWorld(world) && UniquePaths(rows) && made + [MarkMissing(path)] <= Repairs(rows, world)
    ensures var now := ApplyAll(rows, world, made);
            && ApplyAll(rows, world, made + [MarkMissing(path)]) == SetMissing(now, path)
            && UniquePaths(now) && CanMark(now, path)
  {
    OneMore(rows, world, made, MarkMissing(path));
    OutstandingFacts(ApplyAll(rows, world, made), world, MarkMissing(path));
  }

  ghost predicate Recovering(start: seq<Row>, world: World, marks: seq<Repair>, found: seq<Repair>,
      recovered: seq<string>) {
    marks + found <= Repairs(start, world) && recovered == RepairPaths(found)
  }

  lemma {:induction false} RecoveriesStep(known: set<string>, world: World, listing: seq<string>, j: nat)
    requires j < |listing|
    ensures Recoveries(known, world, listing[..j + 1])
         == Recoveries(known, world, listing[..j])
            + (if listing[j] !in known && Recoverable(world, listing[j]) then [Recover(listing[j])] else [])
    ensures Recoveries(known, world, listing[..j + 1]) <= Recoveries(known, world, listing)
  {
    assert listing[..j + 1] == listing[..j] + [listing[j]] && [listing[j]][1..] == [];
    RecoveriesAppend(known, world, listing[..j], [listing[j]]);
    assert listing == listing[..j + 1] + listing[j + 1..];
    RecoveriesAppend(known, world, listing[..j + 1], listing[j + 1..]);
  }

  lemma {:induction false} RecoveryComesNext(start: seq<Row>, world: World, listing: seq<string>, j: nat,
      found: seq<Repair>)
    requires ValidWorld(world) && UniquePaths(start) && listing == world.listing && j < |listing|
    requires listing[j] !in Paths(start) && Recoverable(world, listing[j])
    requires found == Recoveries(Paths(start), world, listing[..j])
    ensures var made, next := Marks(start, world) + found, Recover(listing[j]);
            && made + [next] == Marks(start, world) + (found + [next])
            && made + [next] <= Repairs(start, world)
            && ApplyAll(start, world, made + [next]) == Apply(ApplyAll(start, world, made), world, next)
            && listing[j] !in Paths(ApplyAll(start, world, made))
  {
    var marks, next := Marks(start, world), Recover(listing[j]);
    RecoveriesStep(Paths(start), world, listing, j);
    assert marks + found + [next] == marks + (found + [next]);
    OneMore(start, world, marks + found, next);
    OutstandingFacts(ApplyAll(start, world, marks + found), world, next);
  }

  /** Where the second loop is after `j` files: it has made the repairs `marks + found`. */
  ghost predicate Midway(start: seq<Row>, world: World, marks: seq<Repair>, j: nat, found: seq<Repair>,
      report: Report, rows: seq<Row>)
    requires j <= |world.listing|
  {
    && found == Recoveries(Paths(start), world, world.listing[..j])
    && Recovering(start, world, marks, found, report.recovered)
    && report == Scan(Paths(start), world, world.listing[..j])
    && rows == ApplyAll(start, world, marks + found)
  }

  lemma {:induction false} MidwayStarts(start: seq<Row>, world: World, marks: seq<Repair>)
    requires marks == Marks(start, world)
    ensures Midway(start, world, marks, 0, [], Report([], [], [], []), ApplyAll(start, world, marks))
  {
    assert marks + [] == marks && world.listing[..0] == [];
  }

  lemma {:induction false} MidwayEnds(start: seq<Row>, world: World, marks: seq<Repair>, found: seq<Repair>,
      report: Report, rows: seq<Row>)
    requires marks == Marks(start, world) && Midway(start, world, marks, |world.listing|, found, report, rows)
    ensures marks + found == Repairs(start, world) && report == Scan(Paths(start), world, world.listing)
  {
    assert world.listing[..|world.listing|] == world.listing;
  }

  /** One visit advances the scan, the repairs made and the rows together. */
  lemma {:induction false} VisitAdvances(start: seq<Row>, world: World, marks: seq<Repair>, j: nat, found: seq<Repair>,
      report: Report, rows: seq<Row>)
    requires ValidWorld(world) && UniquePaths(start) && marks == Marks(start, world) && j < |world.listing|
    requires Midway(start, world, marks, j, found, report, rows)
    ensures var path := world.listing[j];
            var triage := TriageOf(Paths(start), world, path);
            && (triage == Recovered ==> path !in Paths(rows))
            && Midway(start, world, marks, j + 1, if triage == Recovered then found + [Recover(path)] else found,
                      Record(report, triage, path), if triage == Recovered then Apply(rows, world, Recover(path))
                        else rows)
  {
    ScanStep(Paths(start), world, world.listing, j);
    RecoveriesStep(Paths(start), world, world.listing, j);
    if TriageOf(Paths(start), world, world.listing[j]) == Recovered {
      RecoveryComesNext(start, world, world.listing, j, found);
      RepairPathsSnoc(found, Recover(world.listing[j]));
    }
  }

  /** A run that made a prefix of the outstanding repairs, and stopped or went on as it was told. */
  lemma {:induction false} RunEnds(start: seq<Row>, world: World, made: seq<Repair>, paths: seq<string>, crashed: bool,
      crashAfter: Option<int>)
    requires made <= Repairs(start, world) && paths == RepairPaths(made)
    requires if crashed then Stops(|made|, crashAfter) else made == Repairs(start, world) && GoesOn(|made|, crashAfter)
    ensures var outstanding := Repairs(start, world);
            && ApplyAll(start, world, made) == Reconciled(start, world, crashAfter)
            && (crashed <==> RunCrashes(|outstanding|, crashAfter))
            && paths == RepairPaths(outstanding[..RunLength(|outstanding|, crashAfter)])
  {
    assert made == Repairs(start, world)[..RunLength(|Repairs(start, world)|, crashAfter)];
  }

  lemma {:induction false} ApplyAllMarksKeepsPaths(rows: seq<Row>, world: World, repairs: seq<Repair>)
    requires forall r :: r in repairs ==> r.MarkMissing?
    ensures Paths(ApplyAll(rows, world, repairs)) == Paths(rows)
  {
    if repairs != [] {
      var n := |repairs| - 1;
      assert repairs[n] in repairs && forall r :: r in repairs[..n] ==> r in repairs;
      ApplyAllMarksKeepsPaths(rows, world, repairs[..n]);
      SetMissingKeepsPaths(ApplyAll(rows, world, repairs[..n]), repairs[n].path);
    }
  }

  lemma {:induction false} MarksKeepPaths(rows: seq<Row>, world: World)
    ensures Paths(ApplyAll(rows, world, Marks(rows, world))) == Paths(rows)
  {
    MarksNameStaleRows(rows, world);
    ApplyAllMarksKeepsPaths(rows, world, Marks(rows, world));
  }

  lemma {:induction false} ScanMarksNothing(known: set<string>, world: World, listing: seq<string>)
    ensures Scan(known, world, listing).missing == []
  {
    if listing != [] {
      ScanMarksNothing(known, world, listing[..|listing| - 1]);
    }
  }

  lemma {:induction false} OtherRepairsKeepPath(rows: seq<Row>, world: World, repairs: seq<Repair>, path: string)
    requires forall r :: r in repairs ==> r.Recover? && r.path != path
    ensures path in Paths(ApplyAll(rows, world, repairs)) <==> path in Paths(rows)
  {
    if repairs != [] {
      var n := |repairs| - 1;
      assert repairs[n] in repairs && forall r :: r in repairs[..n] ==> r in repairs;
      OtherRepairsKeepPath(rows, world, repairs[..n], path);
      var before := ApplyAll(rows, world, repairs[..n]);
      assert forall row :: row in Apply(before, world, repairs[n]) && row.path == path ==> row in before;
      assert forall row :: row in before ==> row in Apply(before, world, repairs[n]);
    }
  }

  /** Recovering the files before position `j` does not make file `j` known. */
  lemma {:induction false} LaterFilesStayUnknown(rows: seq<Row>, world: World, listing: seq<string>, j: nat)
    requires NoRepeats(listing) && j < |listing|
    ensures listing[j] in Paths(ApplyAll(rows, world, Recoveries(Paths(rows), world, listing[..j]))) <==>
            listing[j] in Paths(rows)
  {
    RecoveriesNameFiles(Paths(rows), world, listing[..j]);
    OtherRepairsKeepPath(rows, world, Recoveries(Paths(rows), world, listing[..j]), listing[j]);
  }

  lemma {:induction false} ListedVisitAdvances(start: seq<Row>, world: World, j: nat, found: seq<Repair>,
      report: ServiceReport)
    requires ValidWorld(world) && j < |world.listing|
    requires found == Recoveries(Paths(start), world, world.listing[..j])
    requires report == ServiceScan(Paths(start), world, world.listing[..j])
    ensures var path := world.listing[j];
            var triage := TriageOf(Paths(start), world, path);
            var now, next := ApplyAll(start, world, found), found + [Recover(path)];
            && TriageOf(Paths(now), world, path) == triage
            && Note(report, triage, path) == ServiceScan(Paths(start), world, world.listing[..j + 1])
            && (if triage == Recovered then next else found) == Recoveries(Paths(start), world, world.listing[..j + 1])
            && ApplyAll(start, world, next) == Apply(now, world, Recover(path))
            && (path !in Paths(now) && Recoverable(world, path) ==> triage == Recovered)
  {
    ServiceScanStep(Paths(start), world, world.listing, j);
    RecoveriesStep(Paths(start), world, world.listing, j);
    LaterFilesStayUnknown(start, world, world.listing, j);
    assert (found + [Recover(world.listing[j])])[..|found|] == found;
  }

  class RecordingCatalog {
    var rows: seq<Row>
    var dropNext: bool

    constructor ()
      ensures rows == [] && !dropNext
    {
      rows, dropNext := [], false;
    }

    /** zlm_record_mp4: a pending drop consumes the hook, and prebuffer fragments are never catalogued. */
    method PostHook(path: string, facts: Facts, ghost world: World)
      modifies this
      ensures Service(rows, dropNext) == Step(world, Service(old(rows), old(dropNext)), HookPosted(path, facts))
    {
      var drop := dropNext;
      if drop {
        dropNext := false;
      }
      if !drop && Cataloguable(path) {
        var _ := InsertRow(Catalogued(path, Hook, facts));
      }
    }

    method InsertRow(row: Row) returns (inserted: bool)
      modifies this
      ensures rows == Insert(old(rows), row) && dropNext == old(dropNext)
      ensures inserted <==> row.path !in Paths(old(rows))
      ensures Paths(rows) == Paths(old(rows)) + {row.path}
    {
      assert forall r :: r in rows + [row] <==> r in rows || r == row;
      inserted := row.path !in Paths(rows);
      if inserted {
        rows := rows + [row];
      }
    }

    method MarkRowMissing(path: string) returns (changed: bool)
      requires UniquePaths(rows)
      modifies this
      ensures rows == SetMissing(old(rows), path) && dropNext == old(dropNext)
      ensures changed <==> CanMark(old(rows), path)
    {
      SetMissingFacts(rows, path);
      for i := 0 to |rows|
        invariant rows == old(rows) && forall j :: 0 <= j < i ==> rows[j].path != path
      {
        if rows[i].path == path {
          assert rows[i] in rows;
          changed := rows[i].state != Missing;
          rows := rows[i := rows[i].(state := Missing)];
          return;
        }
      }
      changed := false;
    }

    /** First loop: rows whose file is gone are marked, never deleted. */
    method MarkPass(world: World, crashAfter: Option<int>)
        returns (crashed: bool, missing: seq<string>, ghost made: seq<Repair>)
      requires ValidWorld(world) && UniquePaths(rows)
      modifies this
      ensures dropNext == old(dropNext)
      ensures rows == ApplyAll(old(rows), world, made) && missing == RepairPaths(made)
      ensures made <= Repairs(old(rows), world)
      ensures crashed ==> Stops(|made|, crashAfter)
      ensures !crashed ==> made == Marks(old(rows), world) && GoesOn(|made|, crashAfter)
    {
      var known := rows;
      missing, crashed, made := [], false, [];
      for i := 0 to |known|
        invariant made == Marks(known[..i], world) && made <= Repairs(known, world)
        invariant rows == ApplyAll(known, world, made) && dropNext == old(dropNext)
        invariant missing == RepairPaths(made) && GoesOn(|made|, crashAfter)
      {
        var path := known[i].path;
        MarksStep(known, world, i);
        if known[i].state == Deleted || known[i].state == Missing || path in world.existing {
          continue;
        }
        MarkComesNext(known, world, made, path);
        var changed := MarkRowMissing(path);
        assert changed;
        RepairPathsSnoc(made, MarkMissing(path));
        missing, made := missing + [path], made + [MarkMissing(path)];
        if crashAfter.Some? && |missing| >= crashAfter.value {
          return true, missing, made;
        }
      }
      assert known[..|known|] == known;
    }

    /** Skip, inspect, and for media of positive length run the recovering transaction. */
    method Visit(world: World, path: string, known: set<string>) returns (triage: Triage)
      requires path !in known && Recoverable(world, path) ==> path !in Paths(rows)
      modifies this
      ensures triage == TriageOf(known, world, path) && dropNext == old(dropNext)
      ensures rows == if triage == Recovered then Apply(old(rows), world, Recover(path)) else old(rows)
    {
      if path in known {
        return AlreadyKnown;
      }
      var inspected := world.inspect(path);
      if inspected.ProbeFailed? {
        return Failed;
      }
      if inspected.NoIdentity? || inspected.facts.duration <= 0.0 {
        return Unclear;
      }
      var inserted := InsertRow(RecoveredRow(world, path));
      return if inserted then Recovered else AlreadyKnown;
    }

    /** One file of the second loop. */
    method RecoverNext(world: World, j: nat, known: set<string>, changes: nat, crashAfter: Option<int>,
        sofar: Report, ghost start: seq<Row>, ghost marks: seq<Repair>, ghost made: seq<Repair>)
      returns (crashed: bool, report: Report, ghost found: seq<Repair>)
      requires ValidWorld(world) && UniquePaths(start) && marks == Marks(start, world) && known == Paths(start)
      requires j < |world.listing| && Midway(start, world, marks, j, made, sofar, rows)
      requires changes == |marks| && GoesOn(|marks| + |made|, crashAfter)
      modifies this
      ensures Midway(start, world, marks, j + 1, found, report, rows) && dropNext == old(dropNext)
      ensures if crashed then Stops(|marks| + |found|, crashAfter) else GoesOn(|marks| + |found|, crashAfter)
    {
      VisitAdvances(start, world, marks, j, made, sofar, rows);
      var triage := Visit(world, world.listing[j], known);
      report := Record(sofar, triage, world.listing[j]);
      found, crashed := made, false;
      if triage == Recovered {
        found := made + [Recover(world.listing[j])];
        crashed := crashAfter.Some? && changes + |report.recovered| >= crashAfter.value;
      }
    }

    /** Second loop: unknown listed files are inspected and recovered. The run began with the rows
        `start` and has made the repairs `marks`. */
    method RecoverPass(world: World, changes: nat, crashAfter: Option<int>, ghost start: seq<Row>,
        ghost marks: seq<Repair>)
      returns (crashed: bool, report: Report, ghost found: seq<Repair>)
      requires ValidWorld(world) && UniquePaths(start) && marks == Marks(start, world)
      requires changes == |marks| && GoesOn(changes, crashAfter)
      requires rows == ApplyAll(start, world, marks) && Paths(rows) == Paths(start)
      modifies this
      ensures rows == ApplyAll(start, world, marks + found) && dropNext == old(dropNext)
      ensures Recovering(start, world, marks, found, report.recovered)
      ensures if crashed then Stops(|marks + found|, crashAfter)
              else marks + found == Repairs(start, world) && GoesOn(|marks + found|, crashAfter)
                   && report == Scan(Paths(start), world, world.listing)
    {
      var known := Paths(rows);
      report := Report([], [], [], []);
      found, crashed := [], false;
      MidwayStarts(start, world, marks);
      for j := 0 to |world.listing|
        invariant Midway(start, world, marks, j, found, report, rows) && dropNext == old(dropNext)
        invariant GoesOn(|marks| + |found|, crashAfter) && !crashed
      {
        crashed, report, found := RecoverNext(world, j, known, changes, crashAfter, report, start, marks, found);
        if crashed {
          return;
        }
      }
      MidwayEnds(start, world, marks, found, report, rows);
    }

    /** The rest of a run that has marked what is missing without crashing. */
    method FinishRun(world: World, crashAfter: Option<int>, missing: seq<string>, ghost start: seq<Row>,
        ghost marks: seq<Repair>)
      returns (crashed: bool, report: Report)
      requires ValidWorld(world) && UniquePaths(start) && marks == Marks(start, world)
      requires rows == ApplyAll(start, world, marks) && missing == RepairPaths(marks) && GoesOn(|marks|, crashAfter)
      modifies this
      ensures RunDone(start, world, crashAfter, crashed, report, rows) && dropNext == old(dropNext)
    {
      ghost var found;
      MarksKeepPaths(start, world);
      crashed, report, found := RecoverPass(world, |missing|, crashAfter, start, marks);
      RepairPathsAppend(marks, found);
      RunEnds(start, world, marks + found, missing + report.recovered, crashed, crashAfter);
      ScanMarksNothing(Paths(start), world, world.listing);
      report := report.(missing := missing);
    }

    /** The crash-tolerant reconciler: it reads the catalog, marks the rows whose file is gone, lists
        the files and recovers the unknown ones, one transaction each. `crashAfter` makes the process
        stop after that many mutations. */
    method Reconcile(world: World, crashAfter: Option<int>) returns (crashed: bool, report: Report)
      requires ValidWorld(world) && UniquePaths(rows)
      modifies this
      ensures RunDone(old(rows), world, crashAfter, crashed, report, rows) && dropNext == old(dropNext)
      ensures Extends(old(rows), rows) && forall i :: |old(rows)| <= i < |rows| ==> Inspected(world, rows[i])
    {
      ghost var start := rows;
      ghost var marks;
      var missing;
      ReconciledExtends(world, rows, crashAfter);
      crashed, missing, marks := MarkPass(world, crashAfter);
      if crashed {
        RunEnds(start, world, marks, missing, crashed, crashAfter);
        assert missing + [] == missing;
        report := Report(missing, [], [], []);
      } else {
        crashed, report := FinishRun(world, crashAfter, missing, start, marks);
      }
    }

    /** The service's own reconciler only recovers: it asks the catalog about each file before
        inspecting it, and inserts in a second, checking transaction. A file whose inspection raises (no
        stream identity, no positive duration, or a failed probe) is an error. */
    method RecoverListed(world: World) returns (report: ServiceReport)
      requires ValidWorld(world) && UniquePaths(rows)
      modifies this
      ensures rows == ApplyAll(old(rows), world, Recoveries(Paths(old(rows)), world, world.listing))
      ensures report == ServiceScan(Paths(old(rows)), world, world.listing) && dropNext == old(dropNext)
      ensures Extends(old(rows), rows) && forall i :: |old(rows)| <= i < |rows| ==> Inspected(world, rows[i])
    {
      var listing := world.listing;
      report := ServiceReport(0, [], []);
      ghost var start := rows;
      ghost var found: seq<Repair> := [];
      for j := 0 to |listing|
        invariant found == Recoveries(Paths(start), world, listing[..j])
        invariant rows == ApplyAll(start, world, found) && dropNext == old(dropNext)
        invariant report == ServiceScan(Paths(start), world, listing[..j])
      {
        var path := listing[j];
        ListedVisitAdvances(start, world, j, found, report);
        var triage := Visit(world, path, Paths(rows));
        report := Note(report, triage, path);
        if triage == Recovered {
          found := found + [Recover(path)];
        }
      }
      assert listing[..|listing|] == listing;
      ApplyAllExtends(world, start, found);
    }
  }
}
