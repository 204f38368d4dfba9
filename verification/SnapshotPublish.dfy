/** Swapping a verified snapshot in as the live SQLite database, effect by effect: the previous database's
    sidecars are moved aside before the rename. */
module SnapshotPublish {
  import opened Wrappers

  /** The database, its sidecars, the copy to publish and the sidecars' places in the rollback directory. */
  datatype Path = Database | Wal | Shm | Partial | SavedWal | SavedShm

  datatype Content = Previous | PreviousWal | PreviousShm | Fresh | Torn

  /** A file, and whether its bytes have reached stable storage. */
  datatype Inode = Inode(content: Content, synced: bool)

  type Files = map<Path, Inode>

  /** One effect on the directories. `Begin` leaves a torn file, `Copy` and `Fill` complete it; only `Sync`
      flushes one. */
  datatype Effect = Sync(p: Path) | Rename(source: Path, to: Path) | Begin(p: Path) | Copy(source: Path, to: Path)
      | Fill(p: Path) | Remove(p: Path)

  function Apply(files: Files, effect: Effect): Files {
    match effect
    case Sync(p) => if p in files then files[p := files[p].(synced := true)] else files
    case Rename(source, to) => if source in files then files[to := files[source]] - {source} else files
    case Begin(p) => files[p := Inode(Torn, false)]
    case Copy(source, to) => if source in files then files[to := files[source].(synced := false)] else files
    case Fill(p) => files[p := Inode(Fresh, false)]
    case Remove(p) => files - {p}
  }

  /** After the effects: also what an exception leaves that stops the program after them. */
  function After(files: Files, effects: seq<Effect>): Files {
    if effects == [] then files else Apply(After(files, effects[..|effects| - 1]), effects[|effects| - 1])
  }

  /** A crash that keeps the names as they are and tears, among `torn`, the files that were not flushed. */
  function Crash(files: Files, torn: set<Path>): Files {
    map p | p in files :: if p in torn && !files[p].synced then files[p].(content := Torn) else files[p]
  }

  function Saved(sidecar: Path): Path {
    if sidecar.Wal? then SavedWal else SavedShm
  }

  /** A move is a rename on one device, and a copy and a removal across devices. */
  function Move(files: Files, sidecar: Path, oneDevice: bool): seq<Effect> {
    if sidecar !in files then []
    else if oneDevice then [Rename(sidecar, Saved(sidecar))]
    else [Begin(Saved(sidecar)), Copy(sidecar, Saved(sidecar)), Remove(sidecar)]
  }

  function Publication(files: Files, oneDevice: bool): seq<Effect> {
    [Sync(Partial)] + (Move(files, Wal, oneDevice) + (Move(files, Shm, oneDevice) + [Rename(Partial, Database)]))
  }

  /** How a restoration goes: copying the snapshot raises, checking the copy raises, or it is verified. */
  datatype Outcome = CopyRaised | CheckRaised | Verified

  function Begun(): seq<Effect> {
    [Remove(Partial), Begin(Partial)]
  }

  function Copying(): seq<Effect> {
    [Remove(Partial), Begin(Partial), Fill(Partial)]
  }

  function Checked(files: Files, verified: bool, oneDevice: bool): seq<Effect> {
    if verified then Publication(files, oneDevice) else []
  }

  /** The copy is made beside the database and checked before it is published. Once it is complete it is
      removed in any case; one that could not be completed stays. */
  function Restoration(files: Files, outcome: Outcome, oneDevice: bool): seq<Effect> {
    if outcome.CopyRaised? then Begun()
    else Copying() + (Checked(files, outcome.Verified?, oneDevice) + [Remove(Partial)])
  }

  lemma {:induction false} AfterOne(files: Files, effect: Effect)
    ensures After(files, [effect]) == Apply(files, effect)
  {
    assert [effect][..0] == [];
  }

  lemma {:induction false} AfterThree(files: Files, a: Effect, b: Effect, c: Effect)
    ensures After(files, [a, b, c]) == Apply(Apply(Apply(files, a), b), c)
  {
    assert [a, b, c][..2] == [a, b] && [a, b][..1] == [a];
    AfterOne(files, a);
  }

  /** Moving the log aside does not bring or take the shared memory file. */
  lemma {:induction false} MovesCommute(files: Files, oneDevice: bool)
    ensures var synced := Apply(files, Sync(Partial));
            && Move(synced, Wal, oneDevice) == Move(files, Wal, oneDevice)
            && Move(After(synced, Move(synced, Wal, oneDevice)), Shm, oneDevice) == Move(files, Shm, oneDevice)
  {
    var synced := Apply(files, Sync(Partial));
    if Wal in files {
      if oneDevice {
        AfterOne(synced, Rename(Wal, SavedWal));
      } else {
        AfterThree(synced, Begin(SavedWal), Copy(Wal, SavedWal), Remove(Wal));
      }
    }
  }

  lemma {:induction false} AfterBoth(files: Files, first: seq<Effect>, second: seq<Effect>)
    ensures After(files, first + second) == After(After(files, first), second)
  {
    if second == [] {
      assert first + second == first;
    } else {
      AfterBoth(files, first, second[..|second| - 1]);
      assert (first + second)[..|first + second| - 1] == first + second[..|second| - 1];
    }
  }

  lemma {:induction false} PublicationUnfolds(files: Files, oneDevice: bool)
    ensures var synced := Apply(files, Sync(Partial));
            var first := After(synced, Move(synced, Wal, oneDevice));
            var second := After(first, Move(first, Shm, oneDevice));
            && Move(synced, Wal, oneDevice) == Move(files, Wal, oneDevice)
            && Move(first, Shm, oneDevice) == Move(files, Shm, oneDevice)
            && After(files, Publication(files, oneDevice)) == Apply(second, Rename(Partial, Database))
  {
    var synced, last := Apply(files, Sync(Partial)), [Rename(Partial, Database)];
    var wal, shm := Move(files, Wal, oneDevice), Move(files, Shm, oneDevice);
    MovesCommute(files, oneDevice);
    AfterOne(files, Sync(Partial));
    AfterBoth(files, [Sync(Partial)], wal + (shm + last));
    AfterBoth(synced, wal, shm + last);
    AfterBoth(After(synced, wal), shm, last);
    AfterOne(After(After(synced, wal), shm), Rename(Partial, Database));
  }

  lemma {:induction false} Regrouped(log: seq<Effect>, a: seq<Effect>, b: seq<Effect>, c: seq<Effect>)
    ensures log + a + b + c == log + (a + (b + c))
  {}

  lemma {:induction false} CopyingKeepsSidecars(files: Files, oneDevice: bool)
    ensures Publication(After(files, Copying()), oneDevice) == Publication(files, oneDevice)
  {
    AfterThree(files, Remove(Partial), Begin(Partial), Fill(Partial));
  }

  lemma {:induction false} RestorationUnfolds(files: Files, outcome: Outcome, oneDevice: bool)
    requires !outcome.CopyRaised?
    ensures var copied := After(files, Copying());
            && Publication(copied, oneDevice) == Publication(files, oneDevice)
            && After(files, Restoration(files, outcome, oneDevice))
            == Apply(if outcome.Verified? then After(copied, Publication(copied, oneDevice))
               else copied, Remove(Partial))
  {
    var copied, checked := After(files, Copying()), Checked(files, outcome.Verified?, oneDevice);
    CopyingKeepsSidecars(files, oneDevice);
    AfterBoth(files, Copying(), checked + [Remove(Partial)]);
    AfterBoth(copied, checked, [Remove(Partial)]);
    AfterOne(After(copied, checked), Remove(Partial));
  }

  lemma {:induction false} BegunUnfolds(files: Files)
    ensures After(files, Begun()) == Apply(Apply(files, Remove(Partial)), Begin(Partial))
  {
    assert Begun()[..1] == [Remove(Partial)];
    AfterOne(files, Remove(Partial));
  }

  /** The two directories, with a log of the effects on them. */
  class Storage {
    var files: Files
    ghost var log: seq<Effect>

    method Perform(effect: Effect)
      modifies this
      ensures files == Apply(old(files), effect) && log == old(log) + [effect]
    {
      files, log := Apply(files, effect), log + [effect];
    }

    method MoveAside(sidecar: Path, oneDevice: bool)
      modifies this
      ensures log == old(log) + Move(old(files), sidecar, oneDevice)
      ensures files == After(old(files), Move(old(files), sidecar, oneDevice))
    {
      ghost var was := files;
      if sidecar in files {
        if oneDevice {
          Perform(Rename(sidecar, Saved(sidecar)));
          AfterOne(was, Rename(sidecar, Saved(sidecar)));
        } else {
          Perform(Begin(Saved(sidecar)));
          Perform(Copy(sidecar, Saved(sidecar)));
          Perform(Remove(sidecar));
          AfterThree(was, Begin(Saved(sidecar)), Copy(sidecar, Saved(sidecar)), Remove(sidecar));
        }
      }
    }

    method PublishSqliteSnapshot(oneDevice: bool)
      modifies this
      ensures log == old(log) + Publication(old(files), oneDevice)
      ensures files == After(old(files), Publication(old(files), oneDevice))
    {
      PublicationUnfolds(files, oneDevice);
      Regrouped(log, [Sync(Partial)], Move(files, Wal, oneDevice), Move(files, Shm, oneDevice));
      Regrouped(log, [Sync(Partial)], Move(files, Wal, oneDevice),
        Move(files, Shm, oneDevice) + [Rename(Partial, Database)]);
      Perform(Sync(Partial));
      MoveAside(Wal, oneDevice);
      MoveAside(Shm, oneDevice);
      Perform(Rename(Partial, Database));
    }

    /** Copies the snapshot; the copy is torn until it is finished, and stays so when copying raises. */
    method CopySnapshot(raised: bool)
      modifies this
      ensures log == old(log) + if raised then Begun() else Copying()
      ensures files == After(old(files), if raised then Begun() else Copying())
    {
      BegunUnfolds(files);
      AfterThree(files, Remove(Partial), Begin(Partial), Fill(Partial));
      Perform(Remove(Partial));
      Perform(Begin(Partial));
      if !raised {
        Perform(Fill(Partial));
      }
    }

    /** False stands for an exception. */
    method RestoreSqlite(outcome: Outcome, oneDevice: bool) returns (ok: bool)
      modifies this
      ensures ok == outcome.Verified? && log == old(log) + Restoration(old(files), outcome, oneDevice)
      ensures files == After(old(files), Restoration(old(files), outcome, oneDevice))
    {
      CopySnapshot(outcome.CopyRaised?);
      if outcome.CopyRaised? {
        return false;
      }
      RestorationUnfolds(old(files), outcome, oneDevice);
      Regrouped(old(log), Copying(), Checked(old(files), outcome.Verified?, oneDevice), [Remove(Partial)]);
      if outcome.Verified? {
        PublishSqliteSnapshot(oneDevice);
      }
      Perform(Remove(Partial));
      return outcome.Verified?;
    }
  }

  // ----- what holds at every instant -----

  function Get(files: Files, p: Path): Option<Inode> {
    if p in files then Some(files[p]) else None
  }

  predicate Contains(files: Files, p: Path, content: Content) {
    p in files && files[p].content == content
  }

  predicate IsFresh(files: Files) {
    Contains(files, Database, Fresh)
  }

  /** The sidecar is in its place, or whole in its rollback place; a sidecar there was not does not appear. */
  predicate Preserved(was: Files, now: Files, sidecar: Path, rollback: Path) {
    if sidecar in was
    then Contains(now, sidecar, was[sidecar].content) || Contains(now, rollback, was[sidecar].content)
    else sidecar !in now
  }

  /** The database is the previous one or the whole flushed copy, the copy never stands beside a previous
      sidecar, and no sidecar is lost. */
  predicate Safe(was: Files, now: Files) {
    && (Get(now, Database) == Get(was, Database) || Get(now, Database) == Some(Inode(Fresh, true)))
    && (IsFresh(now) ==> Wal !in now && Shm !in now)
    && Preserved(was, now, Wal, SavedWal) && Preserved(was, now, Shm, SavedShm)
  }

  predicate Holds(files: Files, p: Path, content: Content) {
    p in files ==> files[p] == Inode(content, true)
  }

  /** A previous database with its sidecars, as far as there are any, all on stable storage, and a new
      rollback directory. */
  predicate Prepared(files: Files) {
    && SavedWal !in files && SavedShm !in files
    && Holds(files, Database, Previous) && Holds(files, Wal, PreviousWal) && Holds(files, Shm, PreviousShm)
  }

  /** Before the final rename: nothing but sidecars has moved, and those in `done` are in the rollback directory. */
  predicate Waiting(was: Files, now: Files, done: set<Path>) {
    && Get(now, Database) == Get(was, Database)
    && (forall sidecar :: sidecar in {Wal, Shm} && sidecar !in done ==> Get(now, sidecar) == Get(was, sidecar))
    && (forall sidecar :: sidecar in {Wal, Shm} && sidecar in done ==>
          sidecar !in now && (sidecar in was ==> Contains(now, Saved(sidecar), was[sidecar].content)))
  }

  lemma {:induction false} WaitingIsSafe(was: Files, now: Files, done: set<Path>)
    requires Prepared(was) && Waiting(was, now, done)
    ensures Safe(was, now)
  {}

  /** The files after the first `k` effects of a move. */
  function Moved(files: Files, sidecar: Path, oneDevice: bool, k: nat): Files
    requires sidecar in files
  {
    var copied := files[Saved(sidecar) := files[sidecar].(synced := oneDevice && files[sidecar].synced)];
    if k == 0 then files
    else if oneDevice || k > 2 then copied - {sidecar}
    else if k == 1 then files[Saved(sidecar) := Inode(Torn, false)]
    else copied
  }

  lemma {:induction false} RenamedInOne(files: Files, sidecar: Path, k: nat)
    requires sidecar in {Wal, Shm} && sidecar in files && k <= 1
    ensures After(files, [Rename(sidecar, Saved(sidecar))][..k]) == Moved(files, sidecar, true, k)
  {
    var moves := [Rename(sidecar, Saved(sidecar))];
    assert moves[..0] == [] && moves[..1] == moves;
    AfterOne(files, moves[0]);
  }

  lemma {:induction false} PrefixesOfThree(a: Effect, b: Effect, c: Effect)
    ensures [a, b, c][..0] == [] && [a, b, c][..1] == [a] && [a, b, c][..2] == [a] + [b] && [a, b, c][..3] == [a, b, c]
  {}

  lemma {:induction false} CopiedInThree(files: Files, sidecar: Path, k: nat)
    requires sidecar in {Wal, Shm} && sidecar in files && k <= 3
    ensures After(files, [Begin(Saved(sidecar)), Copy(sidecar, Saved(sidecar)), Remove(sidecar)][..k])
         == Moved(files, sidecar, false, k)
  {
    var a, b, c := Begin(Saved(sidecar)), Copy(sidecar, Saved(sidecar)), Remove(sidecar);
    PrefixesOfThree(a, b, c);
    AfterOne(files, a);
    AfterOne(Apply(files, a), b);
    AfterBoth(files, [a], [b]);
    AfterThree(files, a, b, c);
    var copy := files[sidecar].(synced := false);
    assert files[Saved(sidecar) := Inode(Torn, false)][Saved(sidecar) := copy] == files[Saved(sidecar) := copy];
  }

  lemma {:induction false} MovedBySteps(files: Files, sidecar: Path, oneDevice: bool, k: nat)
    requires sidecar in {Wal, Shm} && sidecar in files && k <= |Move(files, sidecar, oneDevice)|
    ensures After(files, Move(files, sidecar, oneDevice)[..k]) == Moved(files, sidecar, oneDevice, k)
  {
    if oneDevice {
      RenamedInOne(files, sidecar, k);
    } else {
      CopiedInThree(files, sidecar, k);
    }
  }

  lemma {:induction false} SameMoves(was: Files, now: Files, sidecar: Path, oneDevice: bool)
    requires Get(now, sidecar) == Get(was, sidecar)
    ensures Move(was, sidecar, oneDevice) == Move(now, sidecar, oneDevice)
  {}

  lemma {:induction false} MovedIsSafe(was: Files, now: Files, done: set<Path>, sidecar: Path, oneDevice: bool, k: nat)
    requires Prepared(was) && Waiting(was, now, done) && sidecar in {Wal, Shm} && sidecar !in done && sidecar in now
    ensures Safe(was, Moved(now, sidecar, oneDevice, k))
    ensures k >= |Move(now, sidecar, oneDevice)| ==> Waiting(was, Moved(now, sidecar, oneDevice, k), done + {sidecar})
    ensures Get(Moved(now, sidecar, oneDevice, k), Partial) == Get(now, Partial)
  {}

  lemma {:induction false} MoveIsSafe(was: Files, now: Files, done: set<Path>, sidecar: Path, oneDevice: bool, k: nat)
    requires Prepared(was) && Waiting(was, now, done) && sidecar in {Wal, Shm} && sidecar !in done
    requires k <= |Move(was, sidecar, oneDevice)|
    ensures Safe(was, After(now, Move(was, sidecar, oneDevice)[..k]))
    ensures k == |Move(was, sidecar, oneDevice)| ==>
            Waiting(was, After(now, Move(was, sidecar, oneDevice)[..k]), done + {sidecar})
    ensures Get(After(now, Move(was, sidecar, oneDevice)[..k]), Partial) == Get(now, Partial)
  {
    SameMoves(was, now, sidecar, oneDevice);
    if sidecar in now {
      MovedBySteps(now, sidecar, oneDevice, k);
      MovedIsSafe(was, now, done, sidecar, oneDevice, k);
    } else {
      WaitingIsSafe(was, now, done);
    }
  }

  lemma {:induction false} AfterPrefix(files: Files, first: seq<Effect>, second: seq<Effect>, k: nat)
    requires k <= |first| + |second|
    ensures After(files, (first + second)[..k])
         == if k <= |first| then After(files, first[..k]) else After(After(files, first), second[..k - |first|])
  {
    if k <= |first| {
      assert (first + second)[..k] == first[..k];
    } else {
      assert (first + second)[..k] == first + second[..k - |first|];
      AfterBoth(files, first, second[..k - |first|]);
    }
  }

  lemma {:induction false} LastRenameIsSafe(was: Files, now: Files, k: nat)
    requires Prepared(was) && Waiting(was, now, {Wal, Shm}) && Get(now, Partial) == Some(Inode(Fresh, true)) && k <= 1
    ensures Safe(was, After(now, [Rename(Partial, Database)][..k]))
    ensures k == 1 ==> Get(After(now, [Rename(Partial, Database)][..k]), Database) == Some(Inode(Fresh, true))
  {
    var effects := [Rename(Partial, Database)];
    assert effects[..0] == [] && effects[..1] == effects;
    AfterOne(now, Rename(Partial, Database));
  }

  lemma {:induction false} SecondMoveIsSafe(was: Files, now: Files, oneDevice: bool, k: nat)
    requires Prepared(was) && Waiting(was, now, {Wal}) && Get(now, Partial) == Some(Inode(Fresh, true))
    requires k <= |Move(was, Shm, oneDevice)| + 1
    ensures Safe(was, After(now, (Move(was, Shm, oneDevice) + [Rename(Partial, Database)])[..k]))
    ensures k == |Move(was, Shm, oneDevice)| + 1 ==>
              Get(After(now, (Move(was, Shm, oneDevice) + [Rename(Partial, Database)])[..k]), Database)
                == Some(Inode(Fresh, true))
  {
    var moves := Move(was, Shm, oneDevice);
    AfterPrefix(now, moves, [Rename(Partial, Database)], k);
    if k <= |moves| {
      MoveIsSafe(was, now, {Wal}, Shm, oneDevice, k);
    } else {
      MoveIsSafe(was, now, {Wal}, Shm, oneDevice, |moves|);
      assert moves[..|moves|] == moves && {Wal} + {Shm} == {Wal, Shm};
      LastRenameIsSafe(was, After(now, moves), k - |moves|);
    }
  }

  lemma {:induction false} FirstMoveIsSafe(was: Files, now: Files, oneDevice: bool, rest: seq<Effect>, k: nat)
    requires Prepared(was) && Waiting(was, now, {}) && Get(now, Partial) == Some(Inode(Fresh, true))
    requires rest == Move(was, Shm, oneDevice) + [Rename(Partial, Database)]
             && k <= |Move(was, Wal, oneDevice)| + |rest|
    ensures Safe(was, After(now, (Move(was, Wal, oneDevice) + rest)[..k]))
    ensures k == |Move(was, Wal, oneDevice)| + |rest| ==>
            Get(After(now, (Move(was, Wal, oneDevice) + rest)[..k]), Database) == Some(Inode(Fresh, true))
  {
    var moves := Move(was, Wal, oneDevice);
    AfterPrefix(now, moves, rest, k);
    if k <= |moves| {
      MoveIsSafe(was, now, {}, Wal, oneDevice, k);
    } else {
      MoveIsSafe(was, now, {}, Wal, oneDevice, |moves|);
      assert moves[..|moves|] == moves && {} + {Wal} == {Wal};
      SecondMoveIsSafe(was, After(now, moves), oneDevice, k - |moves|);
    }
  }

  /** A publication of a verified copy, stopped by an exception after any number of effects, leaves a safe
      state; completed, it leaves the copy as the database. */
  lemma {:induction false} PublicationIsSafe(was: Files, now: Files, oneDevice: bool, k: nat)
    requires Prepared(was) && Waiting(was, now, {}) && Partial in now && now[Partial].content.Fresh?
    requires k <= |Publication(was, oneDevice)|
    ensures Safe(was, After(now, Publication(was, oneDevice)[..k]))
    ensures k == |Publication(was, oneDevice)| ==>
            Get(After(now, Publication(was, oneDevice)[..k]), Database) == Some(Inode(Fresh, true))
  {
    var rest := Move(was, Shm, oneDevice) + [Rename(Partial, Database)];
    AfterPrefix(now, [Sync(Partial)], Move(was, Wal, oneDevice) + rest, k);
    AfterOne(now, Sync(Partial));
    if k == 0 {
      WaitingIsSafe(was, now, {});
    } else if k == 1 {
      assert [Sync(Partial)][..1] == [Sync(Partial)];
      WaitingIsSafe(was, After(now, [Sync(Partial)]), {});
    } else {
      FirstMoveIsSafe(was, After(now, [Sync(Partial)]), oneDevice, rest, k - 1);
    }
  }

  /** A file system that kept the final rename but lost the moves before it would put the new database
      beside the old sidecars: the order of the effects is what the protocol relies on. */
  lemma {:induction false} LostMovesAreUnsafe(files: Files)
    requires Prepared(files) && Partial in files && files[Partial].content.Fresh?
    ensures Safe(files, After(files, [Sync(Partial), Rename(Partial, Database)])) <==> Wal !in files && Shm !in files
  {
    AfterOne(files, Sync(Partial));
    AfterOne(After(files, [Sync(Partial)]), Rename(Partial, Database));
    AfterBoth(files, [Sync(Partial)], [Rename(Partial, Database)]);
    assert [Sync(Partial)] + [Rename(Partial, Database)] == [Sync(Partial), Rename(Partial, Database)];
  }

  lemma {:induction false} CopiedBySteps(files: Files, k: nat)
    requires k <= 3
    ensures After(files, Copying()[..k])
         == if k == 0 then files else if k == 1 then files - {Partial}
            else if k == 2 then (files - {Partial})[Partial := Inode(Torn, false)]
            else (files - {Partial})[Partial := Inode(Torn, false)][Partial := Inode(Fresh, false)]
  {
    PrefixesOfThree(Remove(Partial), Begin(Partial), Fill(Partial));
    AfterOne(files, Remove(Partial));
    AfterOne(files - {Partial}, Begin(Partial));
    AfterBoth(files, [Remove(Partial)], [Begin(Partial)]);
    AfterThree(files, Remove(Partial), Begin(Partial), Fill(Partial));
  }

  lemma {:induction false} CopyIsSafe(files: Files, k: nat)
    requires Prepared(files) && k <= 3
    ensures Waiting(files, After(files, Copying()[..k]), {})
    ensures k == 3 ==> Get(After(files, Copying()[..k]), Partial) == Some(Inode(Fresh, false))
  {
    CopiedBySteps(files, k);
  }

  lemma {:induction false} RemovalIsSafe(was: Files, now: Files)
    requires Safe(was, now)
    ensures Safe(was, Apply(now, Remove(Partial)))
  {}

  lemma {:induction false} CheckedCopyIsSafe(was: Files, now: Files, publication: seq<Effect>, oneDevice: bool, k: nat)
    requires Prepared(was) && Waiting(was, now, {}) && Partial in now && now[Partial].content.Fresh?
    requires publication == [] || publication == Publication(was, oneDevice)
    requires k <= |publication| + 1
    ensures Safe(was, After(now, (publication + [Remove(Partial)])[..k]))
  {
    AfterPrefix(now, publication, [Remove(Partial)], k);
    assert publication[..|publication|] == publication && [Remove(Partial)][..1] == [Remove(Partial)];
    var here := if k <= |publication| then k else |publication|;
    if publication == [] {
      WaitingIsSafe(was, now, {});
    } else {
      PublicationIsSafe(was, now, oneDevice, here);
    }
    RemovalIsSafe(was, After(now, publication[..here]));
    AfterOne(After(now, publication), Remove(Partial));
  }

  lemma {:induction false} RestorationBegins(files: Files, outcome: Outcome, oneDevice: bool, k: nat)
    requires k <= |Restoration(files, outcome, oneDevice)| && k <= 3
    ensures Restoration(files, outcome, oneDevice)[..k] == Copying()[..k]
  {}

  lemma {:induction false} BeginningIsSafe(files: Files, outcome: Outcome, oneDevice: bool, k: nat)
    requires Prepared(files) && k <= |Restoration(files, outcome, oneDevice)| && k <= 3
    ensures Safe(files, After(files, Restoration(files, outcome, oneDevice)[..k]))
  {
    CopyIsSafe(files, k);
    RestorationBegins(files, outcome, oneDevice, k);
    WaitingIsSafe(files, After(files, Copying()[..k]), {});
  }

  lemma {:induction false} SwapIsSafe(files: Files, copied: Files, checked: seq<Effect>, oneDevice: bool, k: nat)
    requires Prepared(files) && copied == After(files, Copying()) && 3 < k <= |checked| + 4
    requires checked == [] || checked == Publication(files, oneDevice)
    ensures Safe(files, After(files, (Copying() + (checked + [Remove(Partial)]))[..k]))
  {
    CopyIsSafe(files, 3);
    assert Copying()[..3] == Copying();
    AfterPrefix(files, Copying(), checked + [Remove(Partial)], k);
    CheckedCopyIsSafe(files, copied, checked, oneDevice, k - 3);
  }

  /** A restoration stopped by an exception after any number of effects leaves a safe state, whether or not
      the copy is then removed. */
  lemma {:induction false} RestorationIsSafe(files: Files, outcome: Outcome, oneDevice: bool, k: nat)
    requires Prepared(files) && k <= |Restoration(files, outcome, oneDevice)|
    ensures var stopped := After(files, Restoration(files, outcome, oneDevice)[..k]);
            Safe(files, stopped) && Safe(files, Apply(stopped, Remove(Partial)))
  {
    if k <= 3 {
      BeginningIsSafe(files, outcome, oneDevice, k);
    } else {
      SwapIsSafe(files, After(files, Copying()), Checked(files, outcome.Verified?, oneDevice), oneDevice, k);
    }
    RemovalIsSafe(files, After(files, Restoration(files, outcome, oneDevice)[..k]));
  }

  /** A completed restoration has swapped the database exactly when the copy was verified, and leaves a
      torn copy behind exactly when copying raised. */
  lemma {:induction false} RestorationEnds(files: Files, outcome: Outcome, oneDevice: bool)
    requires Prepared(files)
    ensures var done := After(files, Restoration(files, outcome, oneDevice));
            && (IsFresh(done) <==> outcome.Verified?) && (Partial in done <==> outcome.CopyRaised?)
            && (outcome.Verified? ==> Wal !in done && Shm !in done)
            && (outcome.CheckRaised? ==> done == files - {Partial})
            && (outcome.CopyRaised? ==> done == files[Partial := Inode(Torn, false)])
  {
    var copied, publication := After(files, Copying()), Publication(files, oneDevice);
    AfterThree(files, Remove(Partial), Begin(Partial), Fill(Partial));
    match outcome
    case CopyRaised => BegunUnfolds(files);
    case CheckRaised =>
      RestorationUnfolds(files, outcome, oneDevice);
      assert Apply(copied, Remove(Partial)) == files - {Partial};
    case Verified =>
      RestorationUnfolds(files, outcome, oneDevice);
      CopyIsSafe(files, 3);
      assert Copying()[..3] == Copying() && publication[..|publication|] == publication;
      PublicationIsSafe(files, copied, oneDevice, |publication|);
  }

  // ----- crashes -----

  predicate Touches(effect: Effect, p: Path) {
    match effect
    case Rename(source, to) => source == p || to == p
    case Copy(_, to) => to == p
    case _ => effect.p == p
  }

  lemma {:induction false} Untouched(files: Files, effects: seq<Effect>, p: Path)
    requires forall e :: e in effects ==> !Touches(e, p)
    ensures Get(After(files, effects), p) == Get(files, p)
  {
    if effects != [] {
      assert effects[|effects| - 1] in effects;
      Untouched(files, effects[..|effects| - 1], p);
    }
  }

  predicate AllSynced(files: Files) {
    forall p :: p in files ==> files[p].synced
  }

  lemma {:induction false} RenamesStaySynced(files: Files, effects: seq<Effect>)
    requires AllSynced(files) && forall e :: e in effects ==> e.Rename?
    ensures AllSynced(After(files, effects))
  {
    if effects != [] {
      assert effects[|effects| - 1] in effects;
      RenamesStaySynced(files, effects[..|effects| - 1]);
    }
  }

  predicate HasSidecar(files: Files) {
    Wal in files || Shm in files
  }

  function FirstSidecar(files: Files): Path {
    if Wal in files then Wal else Shm
  }

  /** What comes after the first sidecar has been copied away and removed. */
  function Remaining(files: Files): seq<Effect> {
    (if Wal in files then Move(files, Shm, false) else []) + [Rename(Partial, Database)]
  }

  function CopiedAway(files: Files): seq<Effect> {
    var sidecar := FirstSidecar(files);
    [Sync(Partial), Begin(Saved(sidecar)), Copy(sidecar, Saved(sidecar)), Remove(sidecar)]
  }

  lemma {:induction false} PublicationAcross(files: Files)
    requires HasSidecar(files)
    ensures Publication(files, false) == CopiedAway(files) + Remaining(files)
  {
    if Wal !in files {
      assert Publication(files, false) == [Sync(Partial)] + (Move(files, Shm, false) + [Rename(Partial, Database)]);
    }
  }

  /** Before the first removal the database and its sidecars are where they were. */
  lemma {:induction false} NothingRemovedYet(was: Files, k: nat)
    requires HasSidecar(was) && k <= 3
    ensures Waiting(was, After(was, Publication(was, false)[..k]), {})
  {
    PublicationAcross(was);
    var effects := Publication(was, false)[..k];
    assert effects == CopiedAway(was)[..k];
    Untouched(was, effects, Database);
    Untouched(was, effects, Wal);
    Untouched(was, effects, Shm);
  }

  lemma {:induction false} CrashKeepsWaiting(was: Files, now: Files, torn: set<Path>)
    requires Prepared(was) && Waiting(was, now, {})
    ensures Waiting(was, Crash(now, torn), {})
  {}

  lemma {:induction false} CopiedAwayUnfolds(files: Files)
    requires HasSidecar(files)
    ensures var sidecar, after := FirstSidecar(files), After(files, CopiedAway(files));
            && sidecar !in after
            && Get(after, Saved(sidecar)) == Some(files[sidecar].(synced := false))
  {
    var sidecar := FirstSidecar(files);
    var moves := [Begin(Saved(sidecar)), Copy(sidecar, Saved(sidecar)), Remove(sidecar)];
    assert CopiedAway(files) == [Sync(Partial)] + moves;
    AfterBoth(files, [Sync(Partial)], moves);
    AfterOne(files, Sync(Partial));
    AfterThree(Apply(files, Sync(Partial)), moves[0], moves[1], moves[2]);
  }

  lemma {:induction false} RemainingIsElsewhere(files: Files)
    requires HasSidecar(files)
    ensures var sidecar := FirstSidecar(files);
            forall e :: e in Remaining(files) ==> !Touches(e, sidecar) && !Touches(e, Saved(sidecar))
  {}

  lemma {:induction false} StaysUnflushed(files: Files, now: Files, rest: seq<Effect>)
    requires HasSidecar(files) && forall e :: e in rest ==> e in Remaining(files)
    ensures var sidecar, after := FirstSidecar(files), After(now, rest);
            && Get(after, sidecar) == Get(now, sidecar)
            && Get(after, Saved(sidecar)) == Get(now, Saved(sidecar))
  {
    RemainingIsElsewhere(files);
    Untouched(now, rest, FirstSidecar(files));
    Untouched(now, rest, Saved(FirstSidecar(files)));
  }

  lemma {:induction false} PastTheRemoval(files: Files, k: nat)
    requires HasSidecar(files) && 3 < k <= |Publication(files, false)|
    ensures After(files, Publication(files, false)[..k])
         == After(After(files, CopiedAway(files)), Remaining(files)[..k - 4])
  {
    PublicationAcross(files);
    AfterPrefix(files, CopiedAway(files), Remaining(files), k);
    if k == 4 {
      assert CopiedAway(files)[..4] == CopiedAway(files) && Remaining(files)[..0] == [];
    }
  }

  /** After the first removal the only copy of the sidecar is one that was never flushed. */
  lemma {:induction false} OnlyCopyIsUnflushed(was: Files, k: nat)
    requires HasSidecar(was) && 3 < k <= |Publication(was, false)|
    ensures var sidecar, now := FirstSidecar(was), After(was, Publication(was, false)[..k]);
            sidecar !in now && Get(now, Saved(sidecar)) == Some(was[sidecar].(synced := false))
  {
    CopiedAwayUnfolds(was);
    PastTheRemoval(was, k);
    PublicationAcross(was);
    StaysUnflushed(was, After(was, CopiedAway(was)), Remaining(was)[..k - 4]);
  }

  lemma {:induction false} UnflushedCopyIsLost(was: Files, now: Files)
    requires Prepared(was) && HasSidecar(was)
    requires var sidecar := FirstSidecar(was);
             sidecar !in now && Get(now, Saved(sidecar)) == Some(was[sidecar].(synced := false))
    ensures !Safe(was, Crash(now, {SavedWal, SavedShm}))
  {
    assert !Preserved(was, Crash(now, {SavedWal, SavedShm}), FirstSidecar(was), Saved(FirstSidecar(was)));
  }

  lemma {:induction false} SyncingIsEnough(files: Files)
    requires Prepared(files)
    ensures AllSynced(Apply(files, Sync(Partial)))
  {
    forall p | p in files && p != Partial ensures files[p].synced {
      match p
      case Database =>
      case Wal =>
      case Shm =>
    }
  }

  lemma {:induction false} RenamesFollow(files: Files, oneDevice: bool) returns (renames: seq<Effect>)
    requires oneDevice || !HasSidecar(files)
    ensures Publication(files, oneDevice) == [Sync(Partial)] + renames && forall e :: e in renames ==> e.Rename?
  {
    renames := Move(files, Wal, oneDevice) + (Move(files, Shm, oneDevice) + [Rename(Partial, Database)]);
  }

  lemma {:induction false} RenamesAreDurable(was: Files, oneDevice: bool, k: nat, torn: set<Path>)
    requires Prepared(was) && Partial in was && (oneDevice || !HasSidecar(was))
    requires 0 < k <= |Publication(was, oneDevice)|
    ensures var stopped := After(was, Publication(was, oneDevice)[..k]); Crash(stopped, torn) == stopped
  {
    var renames := RenamesFollow(was, oneDevice);
    assert Publication(was, oneDevice)[..k] == [Sync(Partial)] + renames[..k - 1];
    AfterBoth(was, [Sync(Partial)], renames[..k - 1]);
    AfterOne(was, Sync(Partial));
    SyncingIsEnough(was);
    RenamesStaySynced(Apply(was, Sync(Partial)), renames[..k - 1]);
  }

  /** When a publication may be stopped by a crash: its fourth effect across devices is the first removal. */
  predicate Durable(was: Files, oneDevice: bool, k: nat) {
    oneDevice || !HasSidecar(was) || k <= 3
  }

  lemma {:induction false} DurableCrashIsSafe(was: Files, oneDevice: bool, k: nat, torn: set<Path>)
    requires Prepared(was) && Contains(was, Partial, Fresh) && k <= |Publication(was, oneDevice)|
    requires Durable(was, oneDevice, k)
    ensures Safe(was, Crash(After(was, Publication(was, oneDevice)[..k]), torn))
  {
    if k > 0 && (oneDevice || !HasSidecar(was)) {
      PublicationIsSafe(was, was, oneDevice, k);
      RenamesAreDurable(was, oneDevice, k, torn);
    } else {
      if k > 0 {
        NothingRemovedYet(was, k);
      }
      CrashKeepsWaiting(was, After(was, Publication(was, oneDevice)[..k]), torn);
      WaitingIsSafe(was, Crash(After(was, Publication(was, oneDevice)[..k]), torn), {});
    }
  }

  /** A publication stopped by a crash is safe, whatever the crash tears, exactly when the sidecars were
      renamed, there were none, or none had been removed yet. */
  lemma {:induction false} CrashIsSafeExactly(was: Files, oneDevice: bool, k: nat)
    requires Prepared(was) && Contains(was, Partial, Fresh) && k <= |Publication(was, oneDevice)|
    ensures (forall torn :: Safe(was, Crash(After(was, Publication(was, oneDevice)[..k]), torn)))
            <==> Durable(was, oneDevice, k)
  {
    if Durable(was, oneDevice, k) {
      forall torn ensures Safe(was, Crash(After(was, Publication(was, oneDevice)[..k]), torn)) {
        DurableCrashIsSafe(was, oneDevice, k, torn);
      }
    } else {
      OnlyCopyIsUnflushed(was, k);
      UnflushedCopyIsLost(was, After(was, Publication(was, oneDevice)[..k]));
    }
  }

  /** The same of a whole restoration: its copying and its clean-up make no difference. */
  predicate DurableRestoration(files: Files, outcome: Outcome, oneDevice: bool, k: nat) {
    !outcome.Verified? || k <= 3 || Durable(files, oneDevice, k - 3)
  }

  lemma {:induction false} OnlyThePartial(files: Files, outcome: Outcome, oneDevice: bool, k: nat)
    requires k <= |Restoration(files, outcome, oneDevice)| && (!outcome.Verified? || k <= 3)
    ensures Waiting(files, After(files, Restoration(files, outcome, oneDevice)[..k]), {})
  {
    var effects := Restoration(files, outcome, oneDevice)[..k];
    if k <= 3 {
      RestorationBegins(files, outcome, oneDevice, k);
    }
    forall p | p in {Database, Wal, Shm} ensures Get(After(files, effects), p) == Get(files, p) {
      assert forall e :: e in effects ==> !Touches(e, p);
      Untouched(files, effects, p);
    }
  }

  lemma {:induction false} SameElsewhere(a: Files, b: Files, p: Path)
    requires a - {Partial} == b - {Partial} && p != Partial
    ensures Get(a, p) == Get(b, p)
  {
    assert Get(a - {Partial}, p) == Get(b - {Partial}, p);
  }

  lemma {:induction false} PartialIsIrrelevant(was: Files, copied: Files, now: Files, later: Files)
    requires copied - {Partial} == was - {Partial} && now - {Partial} == later - {Partial}
    ensures Safe(was, now) <==> Safe(copied, later)
  {
    forall p | p != Partial ensures Get(copied, p) == Get(was, p) && Get(now, p) == Get(later, p) {
      SameElsewhere(copied, was, p);
      SameElsewhere(now, later, p);
    }
    assert forall p, content :: p != Partial ==> (Contains(now, p, content) <==> Contains(later, p, content)) by {
      forall p, content | p != Partial ensures Contains(now, p, content) <==> Contains(later, p, content) {
        assert Get(now, p) == Get(later, p);
      }
    }
    assert Get(copied, Wal) == Get(was, Wal) && Get(copied, Shm) == Get(was, Shm);
    assert Get(now, Wal) == Get(later, Wal) && Get(now, Shm) == Get(later, Shm);
    assert Get(now, Database) == Get(later, Database) && Get(copied, Database) == Get(was, Database);
  }

  lemma {:induction false} CopiedIsPrepared(files: Files, oneDevice: bool)
    requires Prepared(files)
    ensures var copied := After(files, Copying());
            && Prepared(copied) && Contains(copied, Partial, Fresh) && copied - {Partial} == files - {Partial}
            && Publication(copied, oneDevice) == Publication(files, oneDevice)
            && forall k :: Durable(copied, oneDevice, k) <==> Durable(files, oneDevice, k)
  {
    CopiedBySteps(files, 3);
    assert Copying()[..3] == Copying();
    CopyingKeepsSidecars(files, oneDevice);
  }

  lemma {:induction false} DurableAtTheEnd(files: Files, oneDevice: bool, k: nat)
    requires k >= |Publication(files, oneDevice)|
    ensures Durable(files, oneDevice, |Publication(files, oneDevice)|) <==> Durable(files, oneDevice, k)
  {
    if !oneDevice && HasSidecar(files) {
      PublicationAcross(files);
    }
  }

  lemma {:induction false} CutBeforeCleanUp(files: Files, effects: seq<Effect>, k: nat)
    requires k <= |effects| + 1
    ensures After(files, (effects + [Remove(Partial)])[..k])
         == if k <= |effects| then After(files, effects[..k]) else After(files, effects) - {Partial}
  {
    if k <= |effects| {
      assert (effects + [Remove(Partial)])[..k] == effects[..k];
    } else {
      assert (effects + [Remove(Partial)])[..k] == effects + [Remove(Partial)];
      AfterBoth(files, effects, [Remove(Partial)]);
      AfterOne(After(files, effects), Remove(Partial));
    }
  }

  lemma {:induction false} StoppedAmong(files: Files, first: seq<Effect>, second: seq<Effect>, k: nat) returns (j: nat)
    requires |first| < k <= |first| + |second| + 1
    ensures j == if k - |first| <= |second| then k - |first| else |second|
    ensures var stopped := After(After(files, first), second[..j]);
            After(files, (first + (second + [Remove(Partial)]))[..k]) in {stopped, stopped - {Partial}}
  {
    AfterPrefix(files, first, second + [Remove(Partial)], k);
    CutBeforeCleanUp(After(files, first), second, k - |first|);
    j := if k - |first| <= |second| then k - |first| else |second|;
    assert second[..|second|] == second;
  }

  lemma {:induction false} StoppedPublication(files: Files, oneDevice: bool, k: nat) returns (j: nat)
    requires 3 < k <= |Restoration(files, Verified, oneDevice)|
    ensures j <= |Publication(files, oneDevice)| && (Durable(files, oneDevice, j) <==> Durable(files, oneDevice, k - 3))
    ensures var stopped := After(After(files, Copying()), Publication(files, oneDevice)[..j]);
            After(files, Restoration(files, Verified, oneDevice)[..k]) in {stopped, stopped - {Partial}}
  {
    j := StoppedAmong(files, Copying(), Publication(files, oneDevice), k);
    if k - 3 > |Publication(files, oneDevice)| {
      DurableAtTheEnd(files, oneDevice, k - 3);
    }
  }

  lemma {:induction false} CrashBesides(a: Files, b: Files, torn: set<Path>)
    requires a - {Partial} == b - {Partial}
    ensures Crash(a, torn) - {Partial} == Crash(b, torn) - {Partial}
  {
    forall p | p != Partial ensures Get(a, p) == Get(b, p) {
      SameElsewhere(a, b, p);
    }
    assert forall p :: p != Partial ==> (p in a <==> p in b) by {
      forall p | p != Partial ensures p in a <==> p in b {
        assert Get(a, p) == Get(b, p);
      }
    }
    assert forall p :: p in a && p != Partial ==> a[p] == b[p] by {
      forall p | p in a && p != Partial ensures a[p] == b[p] {
        assert Get(a, p) == Get(b, p);
      }
    }
  }

  lemma {:induction false} CopyingCrashIsSafe(files: Files, outcome: Outcome, oneDevice: bool, k: nat, torn: set<Path>)
    requires Prepared(files) && k <= |Restoration(files, outcome, oneDevice)| && (!outcome.Verified? || k <= 3)
    ensures Safe(files, Crash(After(files, Restoration(files, outcome, oneDevice)[..k]), torn))
  {
    var stopped := After(files, Restoration(files, outcome, oneDevice)[..k]);
    OnlyThePartial(files, outcome, oneDevice, k);
    CrashKeepsWaiting(files, stopped, torn);
    WaitingIsSafe(files, Crash(stopped, torn), {});
  }

  lemma {:induction false} SameCrashes(files: Files, copied: Files, stopped: Files, published: Files)
    requires copied - {Partial} == files - {Partial} && stopped - {Partial} == published - {Partial}
    ensures (forall torn :: Safe(files, Crash(stopped, torn))) <==>
            (forall torn :: Safe(copied, Crash(published, torn)))
  {
    forall torn ensures Safe(files, Crash(stopped, torn)) <==> Safe(copied, Crash(published, torn)) {
      CrashBesides(stopped, published, torn);
      PartialIsIrrelevant(files, copied, Crash(stopped, torn), Crash(published, torn));
    }
  }

  lemma {:induction false} SwapCrashIsSafeExactly(files: Files, copied: Files, oneDevice: bool, k: nat)
    requires Prepared(files) && copied == After(files, Copying()) && 3 < k <= |Restoration(files, Verified, oneDevice)|
    ensures (forall torn :: Safe(files, Crash(After(files, Restoration(files, Verified, oneDevice)[..k]), torn)))
            <==> Durable(files, oneDevice, k - 3)
  {
    var j := StoppedPublication(files, oneDevice, k);
    CopiedIsPrepared(files, oneDevice);
    CrashIsSafeExactly(copied, oneDevice, j);
    SameCrashes(files, copied, After(files, Restoration(files, Verified, oneDevice)[..k]),
      After(copied, Publication(copied, oneDevice)[..j]));
  }

  /** A restoration stopped by a crash: its copying and its clean-up make no difference. */
  lemma {:induction false} RestorationCrashIsSafeExactly(files: Files, outcome: Outcome, oneDevice: bool, k: nat)
    requires Prepared(files) && k <= |Restoration(files, outcome, oneDevice)|
    ensures (forall torn :: Safe(files, Crash(After(files, Restoration(files, outcome, oneDevice)[..k]), torn)))
            <==> DurableRestoration(files, outcome, oneDevice, k)
  {
    if !outcome.Verified? || k <= 3 {
      forall torn ensures Safe(files, Crash(After(files, Restoration(files, outcome, oneDevice)[..k]), torn)) {
        CopyingCrashIsSafe(files, outcome, oneDevice, k, torn);
      }
    } else {
      SwapCrashIsSafeExactly(files, After(files, Copying()), oneDevice, k);
    }
  }
}
