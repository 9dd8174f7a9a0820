/** The transactions on names as the single-row statements that the triggers of dentry see
  * (src/db_module/sqlite.rs:651-681, 863-896, 961-975, 1012-1145), and tdentry after a run of requests. */
module History {
  import opened Namespace
  import opened Lifetime
  import opened TimeView

  /** The dentry table after some statements. */
  function Applied(t: map<Slot, Entry>, cs: seq<Change>): map<Slot, Entry>
    decreases |cs|
  {
    if cs == [] then t else Applied(DentryStep(t, Event(0, cs[0])).0, cs[1..])
  }

  function AddChanges(parent: nat, name: string, ino: nat, kind: Kind): seq<Change> {
    [Add(Slot(parent, name), Entry(ino, kind))] +
    if kind == Directory then [Add(Slot(ino, ".."), Entry(parent, kind)), Add(Slot(ino, "."), Entry(ino, kind))]
    else []
  }

  /** The entry and, for a directory, what an empty one still contains. */
  function DeleteChanges(s: Slot, child: nat): seq<Change> {
    [Remove(s), Remove(Slot(child, ".")), Remove(Slot(child, ".."))]
  }

  function MoveChanges(db: Db, src: Slot, dst: Slot): seq<Change>
    requires src in db.dentry
  {
    var e := db.dentry[src];
    [Remove(dst), Rekey(src, dst, e)] +
    if src.parent != dst.parent && e.kind == Directory then
      [Rekey(Slot(e.child, ".."), Slot(e.child, ".."), Entry(dst.parent, Directory))]
    else []
  }

  /** The statements on dentry that a request executes and commits. Dropping an inode cascades to none. */
  ghost function ChangesOf(fs: Fs, r: Request): seq<Change> {
    match r
    case Lookup(_, _) => []
    case Forget(_, _) => []
    case Mkdir(parent, name) => if CanGetInode(fs.db, parent) then NewChanges(fs.db, parent, name, Directory) else []
    case Create(parent, name) =>
      if Slot(parent, name) !in fs.db.dentry && CanGetInode(fs.db, parent) then
        NewChanges(fs.db, parent, name, RegularFile)
      else []
    case MakeSymlink(parent, name, _) => NewChanges(fs.db, parent, name, Symlink)
    case Link(ino, parent, name) =>
      if LinkDentry(fs.db, ino, parent, name).Ok? then [Add(Slot(parent, name), Entry(ino, RegularFile))] else []
    case Unlink(parent, name) => GoneChanges(fs.db, Slot(parent, name))
    case Rmdir(parent, name) =>
      if Slot(parent, name) in fs.db.dentry && IsEmpty(fs.db, fs.db.dentry[Slot(parent, name)].child) then
        GoneChanges(fs.db, Slot(parent, name))
      else []
    case Rename(parent, name, newParent, newName) =>
      var src, dst := Slot(parent, name), Slot(newParent, newName);
      if MoveDentry(fs.db, src, dst).Ok? then MoveChanges(fs.db, src, dst) else []
  }

  function NewChanges(db: Db, parent: nat, name: string, kind: Kind): seq<Change> {
    match AddInodeAndDentry(db, parent, name, kind)
    case Ok((_, ino)) => AddChanges(parent, name, ino, kind)
    case Err(_) => []
  }

  function GoneChanges(db: Db, s: Slot): seq<Change> {
    if s in db.dentry then DeleteChanges(s, db.dentry[s].child) else []
  }

  lemma AppliedOne(t: map<Slot, Entry>, c: Change, cs: seq<Change>)
    ensures Applied(t, [c] + cs) == Applied(DentryStep(t, Event(0, c)).0, cs)
    ensures Applied(t, []) == t
  {
    assert ([c] + cs)[1..] == cs;
  }

  lemma AddApplied(db: Db, parent: nat, name: string, kind: Kind)
    requires Rows(db) && AddInodeAndDentry(db, parent, name, kind).Ok? && !IsDot(name)
    ensures var (db', ino) := AddInodeAndDentry(db, parent, name, kind).value;
      db'.dentry == Applied(db.dentry, AddChanges(parent, name, ino, kind))
  {
    hide Rows, FreshIno, Applied, NewEntries;
    AddFresh(db);
    AddStatements(db, parent, name, db.lastIno + 1, kind);
  }

  lemma AddStatements(db: Db, parent: nat, name: string, ino: nat, kind: Kind)
    requires FreshIno(db, ino) && Slot(parent, name) !in db.dentry && !IsDot(name)
    ensures db.dentry + NewEntries(parent, name, ino, kind) == Applied(db.dentry, AddChanges(parent, name, ino, kind))
  {
    hide Applied;
    var t := db.dentry;
    var e := Entry(ino, kind);
    var c1, c2, c3 := Add(Slot(parent, name), e), Add(Slot(ino, ".."), Entry(parent, kind)), Add(Slot(ino, "."), e);
    var t1 := t[Slot(parent, name) := e];
    if kind == Directory {
      var t2 := t1[Slot(ino, "..") := Entry(parent, kind)];
      assert AddChanges(parent, name, ino, kind) == [c1] + ([c2] + ([c3] + []));
      AppliedOne(t, c1, [c2] + ([c3] + []));
      AppliedOne(t1, c2, [c3] + []);
      AppliedOne(t2, c3, []);
      AppliedNone(t2[Slot(ino, ".") := e]);
      assert t + NewEntries(parent, name, ino, kind) == t2[Slot(ino, ".") := e];
    } else {
      assert AddChanges(parent, name, ino, kind) == [c1] + [];
      AppliedOne(t, c1, []);
      AppliedNone(t1);
    }
  }

  lemma AppliedRemove(t: map<Slot, Entry>, s: Slot, cs: seq<Change>)
    ensures Applied(t, [Remove(s)] + cs) == Applied(t - {s}, cs)
  {
    AppliedOne(t, Remove(s), cs);
    if s !in t {
      assert t - {s} == t;
    }
  }

  lemma DeleteApplied(db: Db, db': Db, s: Slot, c: nat)
    requires Deleted(db, db', s, c)
    ensures db'.dentry == Applied(db.dentry, DeleteChanges(s, c))
  {
    var t := db.dentry;
    var up, self := Slot(c, ".."), Slot(c, ".");
    hide Applied;
    assert DeleteChanges(s, c) == [Remove(s)] + ([Remove(self)] + ([Remove(up)] + []));
    AppliedRemove(t, s, [Remove(self)] + ([Remove(up)] + []));
    AppliedRemove(t - {s}, self, [Remove(up)] + []);
    AppliedRemove(t - {s} - {self}, up, []);
    AppliedNone(t - {s} - {self} - {up});
    assert t - {s} - {self} - {up} == db'.dentry by {
      EmptyHasDotsOnly(db, c);
    }
  }

  lemma AppliedNone(t: map<Slot, Entry>)
    ensures Applied(t, []) == t
  {
  }

  lemma EmptyHasDotsOnly(db: Db, c: nat)
    requires IsEmpty(db, c)
    ensures forall x :: x in db.dentry && x.parent == c ==> x == Slot(c, ".") || x == Slot(c, "..")
  {
    forall x | x in db.dentry && x.parent == c
      ensures x == Slot(c, ".") || x == Slot(c, "..")
    {
      assert x == Slot(x.parent, x.name);
    }
  }

  lemma MoveStatements(t: map<Slot, Entry>, src: Slot, dst: Slot, e: Entry, up: Slot, e': Entry)
    requires src in t && src != dst
    ensures var t' := (t - {src, dst})[dst := e];
      && Applied(t, [Remove(dst), Rekey(src, dst, e)]) == t'
      && (up in t' ==> Applied(t, [Remove(dst), Rekey(src, dst, e), Rekey(up, up, e')]) == t'[up := e'])
  {
    hide Applied;
    var t1, t2 := t - {dst}, (t - {src, dst})[dst := e];
    var c2, c3 := Rekey(src, dst, e), Rekey(up, up, e');
    assert (t1 - {src})[dst := e] == t2;
    assert [Remove(dst), c2] == [Remove(dst)] + ([c2] + []);
    AppliedRemove(t, dst, [c2] + []);
    AppliedOne(t1, c2, []);
    AppliedNone(t2);
    if up in t2 {
      assert [Remove(dst), c2, c3] == [Remove(dst)] + ([c2] + ([c3] + []));
      AppliedRemove(t, dst, [c2] + ([c3] + []));
      AppliedOne(t1, c2, [c3] + []);
      AppliedOne(t2, c3, []);
      assert (t2 - {up})[up := e'] == t2[up := e'];
      AppliedNone(t2[up := e']);
    }
  }

  lemma MoveApplied(db: Db, src: Slot, dst: Slot)
    requires Rows(db) && Naming(db) && CanMove(db, src, dst)
    ensures Moved(db, src, dst).dentry == Applied(db.dentry, MoveChanges(db, src, dst))
  {
    var e := db.dentry[src];
    var up, e' := Slot(e.child, ".."), Entry(dst.parent, Directory);
    UpIsThere(db, src, dst);
    MoveStatements(db.dentry, src, dst, e, up, e');
    hide Rows, Naming, CanMove, Applied;
    var cs := [Remove(dst), Rekey(src, dst, e)];
    assert cs + [Rekey(up, up, e')] == [Remove(dst), Rekey(src, dst, e), Rekey(up, up, e')] && cs + [] == cs;
  }

  lemma UpIsThere(db: Db, src: Slot, dst: Slot)
    requires Rows(db) && Naming(db) && CanMove(db, src, dst)
    ensures src in db.dentry && src != dst
    ensures var e := db.dentry[src];
      var up := Slot(e.child, "..");
      up != src && up != dst && (e.kind == Directory ==> up in db.dentry && db.dentry[up].kind == Directory)
  {
    var e := db.dentry[src];
    assert Names(db, src, e.child);
    hide Below, Linked, IsEmpty;
  }

  /** Executing the statements of a request leads to the table the request leads to. */
  lemma StepApplied(fs: Fs, r: Request)
    requires Inv(fs) && Sendable(fs, r)
    ensures Step(fs, r).0.db.dentry == Applied(fs.db.dentry, ChangesOf(fs, r))
  {
    hide Tree, Rows, Dots, Naming, Applied, AddInodeAndDentry, DeleteDentry, MoveDentry, LinkDentry, CanGetInode,
         DropIfUnreferenced, Usable, IsEmpty, MoveChanges, AddChanges, DeleteChanges;
    AppliedNone(fs.db.dentry);
    match r {
      case Lookup(_, _) =>
      case Forget(ino, _) => DropKeepsTree(fs.db, ino);
      case Mkdir(parent, name) =>
        if CanGetInode(fs.db, parent) {
          NewApplied(fs, parent, name, Directory);
        }
      case Create(parent, name) =>
        if CanGetInode(fs.db, parent) {
          NewApplied(fs, parent, name, RegularFile);
        }
      case MakeSymlink(parent, name, _) => NewApplied(fs, parent, name, Symlink);
      case Link(ino, parent, name) =>
        if LinkDentry(fs.db, ino, parent, name).Ok? {
          LinkApplied(fs.db, ino, parent, name);
        }
      case Unlink(parent, name) =>
        TreeRows(fs.db);
        if Slot(parent, name) in fs.db.dentry {
          FilesAreEmpty(fs.db, Slot(parent, name));
        }
        GoneApplied(fs, parent, name);
      case Rmdir(parent, name) =>
        if Slot(parent, name) in fs.db.dentry && IsEmpty(fs.db, fs.db.dentry[Slot(parent, name)].child) {
          GoneApplied(fs, parent, name);
        }
      case Rename(parent, name, newParent, newName) => RenameApplied(fs, Slot(parent, name), Slot(newParent, newName));
    }
  }

  lemma NewApplied(fs: Fs, parent: nat, name: string, kind: Kind)
    requires Tree(fs.db) && UsableOrRemoved(fs.db, parent) && !IsDot(name)
    requires CanGetInode(fs.db, parent) || Usable(fs.db, parent)
    ensures AddInodeAndDentry(fs.db, parent, name, kind).Ok? ==>
              AddInodeAndDentry(fs.db, parent, name, kind).value.0.dentry
              == Applied(fs.db.dentry, NewChanges(fs.db, parent, name, kind))
  {
    hide Tree, Rows, AddInodeAndDentry, Applied, AddChanges, LinkedDir;
    if AddInodeAndDentry(fs.db, parent, name, kind).Ok? {
      TreeRows(fs.db);
      UsableIsKnown(fs.db, parent);
      AddMeta(fs.db, parent, name, kind);
      AddApplied(fs.db, parent, name, kind);
    }
  }

  lemma LinkApplied(db: Db, ino: nat, parent: nat, name: string)
    requires LinkDentry(db, ino, parent, name).Ok?
    ensures LinkDentry(db, ino, parent, name).value.dentry
         == Applied(db.dentry, [Add(Slot(parent, name), Entry(ino, RegularFile))])
  {
    var c := Add(Slot(parent, name), Entry(ino, RegularFile));
    assert [c] == [c] + [];
    AppliedOne(db.dentry, c, []);
  }

  lemma GoneApplied(fs: Fs, parent: nat, name: string)
    requires Tree(fs.db) && !IsDot(name)
    requires Slot(parent, name) in fs.db.dentry ==> IsEmpty(fs.db, fs.db.dentry[Slot(parent, name)].child)
    ensures DoUnlink(fs, parent, name).0.db.dentry == Applied(fs.db.dentry, GoneChanges(fs.db, Slot(parent, name)))
  {
    hide Tree, Deleted, Applied, IsEmpty, DropIfUnreferenced, DeleteChanges;
    AppliedNone(fs.db.dentry);
    if Slot(parent, name) in fs.db.dentry {
      var (db, c) := DeleteDentry(fs.db, parent, name).value;
      DeleteIsDeleted(fs.db, parent, name);
      DeleteApplied(fs.db, db, Slot(parent, name), c);
      DeleteKeepsTree(fs.db, parent, name);
      DropKeepsTree(db, c);
    }
  }

  lemma RenameApplied(fs: Fs, src: Slot, dst: Slot)
    requires Inv(fs) && Sendable(fs, Rename(src.parent, src.name, dst.parent, dst.name))
    ensures DoRename(fs, src, dst).0.db.dentry
         == if MoveDentry(fs.db, src, dst).Ok? then Applied(fs.db.dentry, MoveChanges(fs.db, src, dst))
            else fs.db.dentry
  {
    hide Tree, Rows, Naming, MoveDentry, CanMove, Moved, Usable, Below, Applied, MoveChanges, DropIfUnreferenced;
    if MoveDentry(fs.db, src, dst).Ok? {
      TreeRows(fs.db);
      MoveAllowed(fs, src, dst);
      MoveApplied(fs.db, src, dst);
      MoveKeepsTree(fs.db, src, dst);
      if dst in fs.db.dentry {
        DropKeepsTree(Moved(fs.db, src, dst), fs.db.dentry[dst].child);
      }
    }
  }

  // ---------- Whole runs ----------

  lemma {:induction false} AppliedConcat(t: map<Slot, Entry>, cs: seq<Change>, ds: seq<Change>)
    ensures Applied(t, cs + ds) == Applied(Applied(t, cs), ds)
    decreases |cs|
  {
    if cs == [] {
      assert cs + ds == ds;
    } else {
      assert (cs + ds)[1..] == cs[1..] + ds;
      AppliedConcat(DentryStep(t, Event(0, cs[0])).0, cs[1..], ds);
    }
  }

  function Changes(events: seq<Event>): seq<Change> {
    seq(|events|, i requires 0 <= i < |events| => events[i].change)
  }

  /** What the table is does not depend on the times. */
  lemma {:induction false} EventsApplied(events: seq<Event>)
    ensures DentryRun(events).0 == Applied(map[], Changes(events))
    decreases |events|
  {
    hide Applied;
    AppliedNone(map[]);
    if events == [] {
      assert Changes(events) == [];
    } else {
      var init, ev := events[..|events| - 1], events[|events| - 1];
      EventsApplied(init);
      var t := DentryRun(init).0;
      assert Changes(events) == Changes(init) + [ev.change];
      assert [ev.change] + [] == [ev.change];
      AppliedConcat(map[], Changes(init), [ev.change]);
      AppliedOne(t, ev.change, []);
      assert DentryStep(t, ev).0 == DentryStep(t, Event(0, ev.change)).0;
      AppliedNone(DentryStep(t, ev).0);
    }
  }

  /** The statements of a run. */
  ghost function RunChanges(fs: Fs, rs: seq<Request>): seq<Change>
    requires SendableRun(fs, rs)
    decreases |rs|
  {
    if rs == [] then [] else ChangesOf(fs, rs[0]) + RunChanges(Step(fs, rs[0]).0, rs[1..])
  }

  lemma {:induction false} RunApplied(fs: Fs, rs: seq<Request>)
    requires Inv(fs) && SendableRun(fs, rs)
    ensures Run(fs, rs).db.dentry == Applied(fs.db.dentry, RunChanges(fs, rs))
    decreases |rs|
  {
    hide Inv, Step, Sendable, Applied, ChangesOf;
    AppliedNone(fs.db.dentry);
    if rs != [] {
      var next := Step(fs, rs[0]).0;
      StepKeepsInv(fs, rs[0]);
      StepApplied(fs, rs[0]);
      RunApplied(next, rs[1..]);
      AppliedConcat(fs.db.dentry, ChangesOf(fs, rs[0]), RunChanges(next, rs[1..]));
    }
  }

  lemma {:induction false} ChangesOfPrefix(fs: Fs, rs: seq<Request>, k: nat)
    requires SendableRun(fs, rs) && k <= |rs| && SendableRun(fs, rs[..k])
    ensures RunChanges(fs, rs[..k]) <= RunChanges(fs, rs)
    decreases k
  {
    hide Step, Sendable, ChangesOf;
    if k > 0 {
      assert rs[..k][1..] == rs[1..][..k - 1] && rs[..k][0] == rs[0];
      ChangesOfPrefix(Step(fs, rs[0]).0, rs[1..], k - 1);
    }
  }

  /** The statements of init. */
  const INIT_CHANGES: seq<Change> :=
    [Add(Slot(ROOT, "."), Entry(ROOT, Directory)), Add(Slot(ROOT, ".."), Entry(ROOT, Directory))]

  lemma InitApplied()
    ensures Applied(map[], INIT_CHANGES) == NEW_DB.dentry
  {
    hide Applied;
    var c1, c2 := INIT_CHANGES[0], INIT_CHANGES[1];
    assert INIT_CHANGES == [c1] + ([c2] + []);
    AppliedOne(map[], c1, [c2] + []);
    AppliedOne(map[c1.slot := c1.entry], c2, []);
    AppliedNone(map[c1.slot := c1.entry, c2.slot := c2.entry]);
  }

  /** The events of the whole life of a database up to now: `before` has led to the tables of `fs`, then came the
    * requests `rs`. */
  ghost predicate Recorded(events: seq<Event>, before: seq<Change>, fs: Fs, rs: seq<Request>)
    requires SendableRun(fs, rs)
  {
    Applied(map[], before) == fs.db.dentry && Changes(events) == before + RunChanges(fs, rs)
  }

  /** tdentry at a cut-off between two requests, compared with the names after the first `k` requests: every entry
    * is shown, and nothing else is exactly if the edge is not stale and has no disagreeing ties. */
  lemma RunInView(events: seq<Event>, before: seq<Change>, fs: Fs, rs: seq<Request>, k: nat, t: int, g: Edge)
    requires Inv(fs) && SendableRun(fs, rs) && k <= |rs| && SendableRun(fs, rs[..k]) && Recorded(events, before, fs, rs)
    requires InOrder(EventTimes(events)) && CutsAt(EventTimes(events), t, |before| + |RunChanges(fs, rs[..k])|)
    ensures var n := |before| + |RunChanges(fs, rs[..k])|;
      && n <= |events|
      && var rows, edges := TimeView.Before(DentryRun(events).1, t), Edges(Run(fs, rs[..k]).db.dentry);
      && Shows(rows, g, edges)
      && (ShowsOnly(rows, g, edges) <==> Settled(rows, g) && g !in Stale(events[..n]))
  {
    hide Inv, Applied, RunChanges, SendableRun, Run, InOrder, CutsAt, Stale, Settled, Shows, ShowsOnly, DentryRun,
         Edges, TimeView.Before;
    var n := |before| + |RunChanges(fs, rs[..k])|;
    EntriesInView(events, t, n, g);
    EventsApplied(events[..n]);
    ChangesOfPrefix(fs, rs, k);
    assert Changes(events[..n]) == Changes(events)[..n] == before + RunChanges(fs, rs[..k]);
    AppliedConcat(map[], before, RunChanges(fs, rs[..k]));
    RunApplied(fs, rs[..k]);
  }

  /** For a new database and its first mount `before` is what init has done; mounting executes no statement on
    * dentry. */
  lemma NewDbIsRecorded()
    ensures Inv(Fs(DropAll(NEW_DB), map[])) && Applied(map[], INIT_CHANGES) == DropAll(NEW_DB).dentry
  {
    hide Tree, DropAll, Applied;
    NewDbIsTree();
    MountEstablishesInv(NEW_DB);
    InitApplied();
  }
}
