/** When an inode goes for good: mkdir undone, and the fate of inodes that have lost their last name
  * (src/filesystem.rs:285-300, 534-614, 721-733; src/db_module/sqlite.rs:961-975, 1050-1145). */
module Reclaiming {
  import opened Bytes
  import opened Namespace
  import opened Lifetime

  /** mkdir followed by rmdir and forget leaves everything as it was, except that a number has been used up. */
  lemma MkdirIsUndone(fs: Fs, parent: nat, name: string)
    requires Inv(fs) && Usable(fs.db, parent) && !IsDot(name) && DoMkdir(fs, parent, name).1.Inode?
    ensures var (fs1, reply) := DoMkdir(fs, parent, name);
      var (fs2, reply2) := DoRmdir(fs1, parent, name);
      && reply2 == Done && Count(fs2.held, reply.ino) == 1
      && DoForget(fs2, reply.ino, 1) == fs.(db := fs.db.(lastIno := fs.db.lastIno + 1))
  {
    hide Tree, Referenced, RemoveInode, AddInodeAndDentry, DeleteDentry, IsEmpty;
    TreeRows(fs.db);
    var db, ino := fs.db, fs.db.lastIno + 1;
    AddNumber(db, parent, name);
    AddFresh(db);
    AddIsAdded(db, parent, name, Directory);
    var db1 := AddInodeAndDentry(db, parent, name, Directory).value.0;
    RmdirOfFresh(db, db1, parent, name, ino);
    SlotIsThere(db1, parent, name);
    DropFresh(db, ino);
    assert Take(fs.held, ino) - {ino} == fs.held;
  }

  lemma AddNumber(db: Db, parent: nat, name: string)
    requires AddInodeAndDentry(db, parent, name, Directory).Ok?
    ensures AddInodeAndDentry(db, parent, name, Directory).value.1 == db.lastIno + 1
  {
  }

  lemma SlotIsThere(db: Db, parent: nat, name: string)
    requires DeleteDentry(db, parent, name).Ok?
    ensures Slot(parent, name) in db.dentry
    ensures DeleteDentry(db, parent, name).value.1 == db.dentry[Slot(parent, name)].child
  {
  }

  lemma RmdirOfFresh(db: Db, db1: Db, parent: nat, name: string, ino: nat)
    requires FreshIno(db, ino) && Added(db, db1, parent, name, ino, Directory) && !IsDot(name) && parent != ino
    ensures IsEmpty(db1, ino) && DeleteDentry(db1, parent, name).Ok?
    ensures DeleteDentry(db1, parent, name).value
         == (Db(db.meta[ino := Directory], db.dentry, ino), ino)
  {
    assert DeleteDentry(db1, parent, name).value.0.dentry == db.dentry;
  }

  /** Dropping an inode that no entry mentions. */
  lemma DropFresh(db: Db, ino: nat)
    requires FreshIno(db, ino)
    ensures DropIfUnreferenced(Db(db.meta[ino := Directory], db.dentry, ino), ino) == Db(db.meta, db.dentry, ino)
  {
    var db2 := Db(db.meta[ino := Directory], db.dentry, ino);
    forall s
      ensures !RefersTo(db2, s, ino)
    {
    }
    assert RemoveInode(db2, ino).dentry == db.dentry;
    assert RemoveInode(db2, ino).meta == db.meta;
  }

  // ---------- Inodes without a name ----------

  ghost predicate Removed(db: Db, i: nat) {
    i in db.meta && !Linked(db, i)
  }

  /** What can keep an inode without a name from being reclaimed: its own '.', or a '..' that leads to it. Both
    * are left over only from directories that a rename has overwritten. */
  ghost predicate Leaked(db: Db, i: nat) {
    Slot(i, ".") in db.dentry || exists x :: RefersTo(db, Slot(x, ".."), i)
  }

  lemma RemovedReferences(db: Db, i: nat)
    requires Tree(db) && !Linked(db, i)
    ensures Referenced(db, i) <==> Leaked(db, i)
  {
    hide Rooted, Naming, Rows;
    if Referenced(db, i) {
      var s :| RefersTo(db, s, i);
      assert !IsDot(s.name) ==> Names(db, s, i);
      assert HasDots(db, s.parent);
      assert s.name == "." ==> s == Slot(i, ".");
      assert s.name == ".." ==> s == Slot(s.parent, "..");
    }
    if Slot(i, ".") in db.dentry {
      assert HasDots(db, Slot(i, ".").parent);
      assert RefersTo(db, Slot(i, "."), i);
    }
  }

  /** A '..' that leads to a removed inode stands in a removed directory. */
  lemma ParentOfRemoved(db: Db, x: nat, i: nat)
    requires Tree(db) && RefersTo(db, Slot(x, ".."), i)
    ensures Linked(db, x) ==> Linked(db, i)
  {
    assert x in db.meta && db.meta[x] == Directory;
    if s :| Names(db, s, x) {
      assert Parent(db, x) == s.parent;
    }
  }

  lemma LinkedIsReferenced(db: Db, i: nat)
    requires Dots(db) && Linked(db, i)
    ensures Referenced(db, i)
  {
    if i == ROOT {
      DotRefers(db, ROOT);
    } else {
      var s :| Names(db, s, i);
      assert RefersTo(db, s, i);
    }
  }

  /** So a file that something refers to has a name. */
  lemma ReferencedFileIsLinked(db: Db, i: nat)
    requires Tree(db) && i in db.meta && db.meta[i] != Directory
    ensures Referenced(db, i) <==> Linked(db, i)
  {
    hide Tree, Leaked, Referenced, Linked;
    TreeRows(db);
    TreeDots(db);
    FilesDoNotLeak(db, i);
    if Linked(db, i) {
      LinkedIsReferenced(db, i);
    } else {
      RemovedReferences(db, i);
    }
  }

  /** The forget that takes back the last reference reclaims the inode exactly when it has no name, no '.' of its
    * own, and no '..' leads to it. */
  lemma ForgetReclaims(fs: Fs, i: nat)
    requires Inv(fs) && i in fs.held
    ensures i !in DoForget(fs, i, fs.held[i]).db.meta <==> !Linked(fs.db, i) && !Leaked(fs.db, i)
  {
    hide Tree, Linked, Leaked, Referenced, RemoveInode;
    if Linked(fs.db, i) {
      TreeDots(fs.db);
      LinkedIsReferenced(fs.db, i);
    } else {
      RemovedReferences(fs.db, i);
    }
    DroppedOrNot(fs.db, i);
  }

  lemma TreeDots(db: Db)
    requires Tree(db)
    ensures Dots(db)
  {
  }

  lemma DroppedOrNot(db: Db, i: nat)
    ensures i in DropIfUnreferenced(db, i).meta <==> i in db.meta && Referenced(db, i)
  {
  }

  // ---------- Nothing brings a removed inode back, and nothing unties its leftovers ----------

  /** What a transaction does to removed inodes: they get no name, the dots in them stay, no other dots come to
    * lead to them, and a row goes only if nothing refers to it. */
  ghost predicate KeepsRemoved(db: Db, db': Db) {
    && (forall i :: Removed(db, i) ==> !Linked(db', i))
    && (forall s :: s in db.dentry && IsDot(s.name) && !Linked(db, s.parent) ==>
          s in db'.dentry && db'.dentry[s] == db.dentry[s])
    && (forall s, i :: Removed(db, i) && RefersTo(db', s, i) ==> RefersTo(db, s, i))
    && (forall s :: s in db'.dentry && Removed(db, s.parent) ==> s in db.dentry)
    && (forall i :: i in db.meta && i !in db'.meta ==> !Referenced(db', i))
  }

  lemma AddKeepsRemoved(db: Db, db': Db, parent: nat, name: string, ino: nat, kind: Kind)
    requires Rows(db) && LinkedDir(db, parent) && Added(db, db', parent, name, ino, kind) && !IsDot(name)
    ensures KeepsRemoved(db, db')
  {
    AddFresh(db);
    AddLinked(db, db', parent, name, ino, kind);
    hide Linked, Referenced;
    assert ino !in db.meta;
  }

  lemma LinkKeepsRemoved(db: Db, db': Db, ino: nat, new_: Slot)
    requires Tree(db) && NewLink(db, db', ino, new_) && LinkedDir(db, new_.parent) && Referenced(db, ino)
    ensures KeepsRemoved(db, db')
  {
    hide Linked, Leaked, Tree, Dots, Naming, Rooted, Names, HasDots, Parent;
    LinkNames(db, db', ino, new_);
    TreeRows(db);
    FilesDoNotLeak(db, ino);
    if !Linked(db, ino) {
      RemovedReferences(db, ino);
    }
    hide Rows, Referenced;
  }

  lemma FilesDoNotLeak(db: Db, i: nat)
    requires Rows(db) && i in db.meta && db.meta[i] != Directory
    ensures !Leaked(db, i)
  {
  }

  lemma DeleteKeepsRemoved(db: Db, db': Db, src: Slot, c: nat)
    requires Rows(db) && Naming(db) && Deleted(db, db', src, c)
    ensures KeepsRemoved(db, db')
  {
    DeleteFacts(db, db', src, c);
    assert Names(db, src, c);
    assert Linked(db, c);
    hide Linked, Naming, Referenced, IsEmpty;
  }

  lemma MoveKeepsRemoved(db: Db, db': Db, src: Slot, dst: Slot)
    requires Rows(db) && Naming(db) && CanMove(db, src, dst) && MovedTo(db, db', src, dst)
    ensures KeepsRemoved(db, db')
  {
    hide Linked, Below, IsEmpty;
    MoveLinked(db, db', src, dst);
    var m := db.dentry[src].child;
    assert Names(db, src, m);
    NameLinks(db, src, m);
    var up := Slot(m, "..");
    hide Naming, Rows, Referenced, HasDots, Parent;
  }

  lemma NameLinks(db: Db, s: Slot, i: nat)
    requires NamesInTree(db) && Names(db, s, i)
    ensures Linked(db, i) && Linked(db, s.parent)
  {
  }

  lemma DropKeepsRemoved(db: Db, db': Db, i: nat)
    requires KeepsRemoved(db, db') && Tree(db')
    ensures KeepsRemoved(db, DropIfUnreferenced(db', i))
  {
    hide Tree, Linked, Referenced, DropIfUnreferenced;
    DropKeepsTree(db', i);
    SameEntries(db', DropIfUnreferenced(db', i));
  }

  lemma NothingHappens(db: Db)
    requires Rows(db)
    ensures KeepsRemoved(db, db)
  {
    hide Linked;
  }

  lemma AddCase(fs: Fs, parent: nat, name: string, kind: Kind)
    requires Inv(fs) && Usable(fs.db, parent) && !IsDot(name) && AddInodeAndDentry(fs.db, parent, name, kind).Ok?
    ensures KeepsRemoved(fs.db, AddInodeAndDentry(fs.db, parent, name, kind).value.0)
  {
    hide Tree, Referenced, LinkedDir, AddInodeAndDentry, Added, KeepsRemoved, Rows;
    var (db', ino) := AddInodeAndDentry(fs.db, parent, name, kind).value;
    TreeRows(fs.db);
    UsableIsKnown(fs.db, parent);
    AddNeedsParent(fs.db, parent, name, kind);
    AddIsAdded(fs.db, parent, name, kind);
    AddKeepsRemoved(fs.db, db', parent, name, ino, kind);
  }

  lemma MkdirCase(fs: Fs, parent: nat, name: string)
    requires Inv(fs) && UsableOrRemoved(fs.db, parent) && !IsDot(name)
    ensures KeepsRemoved(fs.db, DoMkdir(fs, parent, name).0.db)
  {
    hide Inv, Usable, AddInodeAndDentry, KeepsRemoved;
    InvRows(fs);
    NothingHappens(fs.db);
    if CanGetInode(fs.db, parent) && AddInodeAndDentry(fs.db, parent, name, Directory).Ok? {
      AddCase(fs, parent, name, Directory);
    }
  }

  lemma CreateCase(fs: Fs, parent: nat, name: string)
    requires Inv(fs) && UsableOrRemoved(fs.db, parent) && !IsDot(name)
    ensures KeepsRemoved(fs.db, DoCreate(fs, parent, name).0.db)
  {
    hide Inv, Usable, AddInodeAndDentry, KeepsRemoved;
    InvRows(fs);
    NothingHappens(fs.db);
    if CanGetInode(fs.db, parent) && AddInodeAndDentry(fs.db, parent, name, RegularFile).Ok? {
      AddCase(fs, parent, name, RegularFile);
    }
  }

  lemma SymlinkCase(fs: Fs, parent: nat, name: string, text: bytes)
    requires Inv(fs) && Usable(fs.db, parent) && !IsDot(name)
    ensures KeepsRemoved(fs.db, DoSymlink(fs, parent, name, text).0.db)
  {
    hide Inv, Usable, AddInodeAndDentry, KeepsRemoved;
    InvRows(fs);
    NothingHappens(fs.db);
    if AddInodeAndDentry(fs.db, parent, name, Symlink).Ok? {
      AddCase(fs, parent, name, Symlink);
    }
  }

  lemma LinkCase(fs: Fs, ino: nat, parent: nat, name: string)
    requires Inv(fs) && Usable(fs.db, parent) && !IsDot(name)
    ensures KeepsRemoved(fs.db, DoLink(fs, ino, parent, name).0.db)
  {
    hide Tree, Referenced, LinkedDir, KeepsRemoved;
    TreeRows(fs.db);
    NothingHappens(fs.db);
    if LinkDentry(fs.db, ino, parent, name).Ok? {
      LinkKeepsRemoved(fs.db, LinkDentry(fs.db, ino, parent, name).value, ino, Slot(parent, name));
    }
  }

  lemma ForgetCase(fs: Fs, ino: nat)
    requires Inv(fs)
    ensures KeepsRemoved(fs.db, DropIfUnreferenced(fs.db, ino))
  {
    hide Tree, KeepsRemoved, DropIfUnreferenced;
    TreeRows(fs.db);
    NothingHappens(fs.db);
    DropKeepsRemoved(fs.db, fs.db, ino);
  }

  lemma InvRows(fs: Fs)
    requires Inv(fs)
    ensures Rows(fs.db) && forall i :: i in fs.held ==> i <= fs.db.lastIno
  {
    hide Dots, Naming, Rooted;
  }

  lemma ReclaimCase(db: Db, fs: Fs, i: nat)
    requires KeepsRemoved(db, fs.db) && Tree(fs.db)
    ensures KeepsRemoved(db, Reclaim(fs, i).db)
  {
    hide Tree, KeepsRemoved, DropIfUnreferenced;
    DropKeepsRemoved(db, fs.db, i);
  }

  lemma DeleteCase(fs: Fs, parent: nat, name: string)
    requires Inv(fs) && !IsDot(name) && DeleteDentry(fs.db, parent, name).Ok?
    requires IsEmpty(fs.db, DeleteDentry(fs.db, parent, name).value.1)
    ensures KeepsRemoved(fs.db, DoUnlink(fs, parent, name).0.db)
  {
    hide Tree, Referenced, IsEmpty, DeleteDentry, Deleted, Reclaim, KeepsRemoved, Rows, Naming;
    var (db, ino) := DeleteDentry(fs.db, parent, name).value;
    TreeRows(fs.db);
    DeleteIsDeleted(fs.db, parent, name);
    DeleteKeepsRemoved(fs.db, db, Slot(parent, name), ino);
    DeleteKeepsTree(fs.db, parent, name);
    ReclaimCase(fs.db, fs.(db := db), ino);
  }

  lemma MoveCase(fs: Fs, src: Slot, dst: Slot)
    requires Inv(fs) && Sendable(fs, Rename(src.parent, src.name, dst.parent, dst.name))
    ensures KeepsRemoved(fs.db, DoRename(fs, src, dst).0.db)
  {
    hide Tree, Rows, Naming, Referenced, MoveDentry, CanMove, MovedTo, Reclaim, Moved, Usable, Below, KeepsRemoved;
    TreeRows(fs.db);
    NothingHappens(fs.db);
    if MoveDentry(fs.db, src, dst).Ok? {
      var (db, overwritten) := MoveDentry(fs.db, src, dst).value;
      MoveAllowed(fs, src, dst);
      MoveKeepsTree(fs.db, src, dst);
      MoveIsMoved(fs.db, src, dst);
      MoveKeepsRemoved(fs.db, db, src, dst);
      if overwritten.Some? {
        ReclaimCase(fs.db, fs.(db := db), overwritten.value);
      }
    }
  }

  lemma StepKeepsRemoved(fs: Fs, r: Request)
    requires Inv(fs) && Sendable(fs, r)
    ensures KeepsRemoved(fs.db, Step(fs, r).0.db)
  {
    hide Inv, DoMkdir, DoCreate, DoSymlink, DoLink, DoUnlink, DoRmdir, DoRename, Usable, UsableOrRemoved, Below,
         KeepsRemoved, DropIfUnreferenced;
    InvRows(fs);
    NothingHappens(fs.db);
    match r {
      case Lookup(parent, name) =>
      case Forget(ino, n) =>
        ForgetCase(fs, ino);
      case Mkdir(parent, name) =>
        MkdirCase(fs, parent, name);
      case Create(parent, name) =>
        CreateCase(fs, parent, name);
      case MakeSymlink(parent, name, text) =>
        SymlinkCase(fs, parent, name, text);
      case Link(ino, parent, name) =>
        LinkCase(fs, ino, parent, name);
      case Unlink(parent, name) =>
        UnlinkCase(fs, parent, name);
      case Rmdir(parent, name) =>
        RmdirCase(fs, parent, name);
      case Rename(parent, name, newParent, newName) =>
        MoveCase(fs, Slot(parent, name), Slot(newParent, newName));
    }
  }

  lemma UnlinkCase(fs: Fs, parent: nat, name: string)
    requires Inv(fs) && !IsDot(name)
    requires Slot(parent, name) in fs.db.dentry ==> fs.db.dentry[Slot(parent, name)].kind != Directory
    ensures KeepsRemoved(fs.db, DoUnlink(fs, parent, name).0.db)
  {
    hide KeepsRemoved, Reclaim;
    NothingHappens(fs.db);
    if Slot(parent, name) in fs.db.dentry {
      FilesAreEmpty(fs.db, Slot(parent, name));
      DeleteCase(fs, parent, name);
    }
  }

  lemma RmdirCase(fs: Fs, parent: nat, name: string)
    requires Inv(fs) && !IsDot(name)
    ensures KeepsRemoved(fs.db, DoRmdir(fs, parent, name).0.db)
  {
    hide KeepsRemoved, Reclaim;
    NothingHappens(fs.db);
    if Slot(parent, name) in fs.db.dentry && IsEmpty(fs.db, fs.db.dentry[Slot(parent, name)].child) {
      DeleteCase(fs, parent, name);
    }
  }

  lemma RemovedStays(db: Db, db': Db, i: nat)
    requires Tree(db) && Tree(db') && KeepsRemoved(db, db') && Removed(db, i)
    ensures i in db'.meta ==> Removed(db', i) && (Leaked(db', i) <==> Leaked(db, i))
    ensures Leaked(db, i) ==> i in db'.meta
  {
    hide Tree, Linked, Referenced;
    RemovedReferences(db', i);
    if Slot(i, ".") in db.dentry {
      assert Slot(i, ".") in db'.dentry;
    }
    if x :| RefersTo(db, Slot(x, ".."), i) {
      ParentOfRemoved(db, x, i);
      assert RefersTo(db', Slot(x, ".."), i);
    }
    if x :| RefersTo(db', Slot(x, ".."), i) {
      assert RefersTo(db, Slot(x, ".."), i);
    }
  }

  /** The fate of an inode without a name: at every point of every run it is there exactly if it has leaked, which
    * is settled from the start, or is still held by the kernel. */
  lemma {:induction false} RemovedFate(fs: Fs, rs: seq<Request>, i: nat)
    requires Inv(fs) && SendableRun(fs, rs) && Removed(fs.db, i)
    ensures i in Run(fs, rs).db.meta <==> Leaked(fs.db, i) || i in Run(fs, rs).held
    decreases |rs|
  {
    hide Tree, Referenced, Linked, Leaked, Step, Sendable;
    if rs == [] {
      RemovedReferences(fs.db, i);
    } else {
      var next := Step(fs, rs[0]).0;
      StepKeepsInv(fs, rs[0]);
      StepKeepsRemoved(fs, rs[0]);
      RemovedStays(fs.db, next.db, i);
      if i in next.db.meta {
        RemovedFate(next, rs[1..], i);
      } else {
        RunKeepsInv(next, rs[1..]);
        KnownNumbers(fs);
      }
    }
  }

  /** A leaked inode also outlives every unmount and mount. */
  lemma LeakedIsMounted(db: Db, i: nat)
    requires Tree(db) && Removed(db, i)
    ensures i in DropAll(db).meta <==> Leaked(db, i)
    ensures Leaked(db, i) ==> Removed(DropAll(db), i) && Leaked(DropAll(db), i)
  {
    hide Tree, Linked, Leaked, Referenced;
    RemovedReferences(db, i);
    MountEstablishesInv(db);
    SameLeaks(db, DropAll(db), i);
  }

  // ---------- Directories that lose their name ----------

  /** A directory removed by rmdir has no '.' any more, so it can only be kept by the kernel or by a '..' that led
    * to it already; it is gone at once exactly if there is neither. */
  lemma RmdirReclaims(fs: Fs, parent: nat, name: string)
    requires Inv(fs) && !IsDot(name) && DoRmdir(fs, parent, name).1 == Done
    requires fs.db.meta[fs.db.dentry[Slot(parent, name)].child] == Directory
    ensures var d := fs.db.dentry[Slot(parent, name)].child;
      var db := DoRmdir(fs, parent, name).0.db;
      && !Linked(db, d) && (Leaked(db, d) <==> exists x :: RefersTo(fs.db, Slot(x, ".."), d))
      && (d in db.meta <==> Leaked(db, d) || d in fs.held)
  {
    hide Tree, IsEmpty, RemoveInode, DeleteDentry, Deleted, Referenced, Leaked, Linked, Rows, Naming, KeepsRemoved;
    SlotIsThere(fs.db, parent, name);
    TreeRows(fs.db);
    var src := Slot(parent, name);
    var (db, d) := DeleteDentry(fs.db, parent, name).value;
    DeleteIsDeleted(fs.db, parent, name);
    DeleteKeepsTree(fs.db, parent, name);
    RmdirLeaves(fs.db, db, src, d);
    RemovedReferences(db, d);
    DroppedOrNot(db, d);
    DropKeepsTree(db, d);
    SameLeaks(db, DropIfUnreferenced(db, d), d);
  }

  lemma SameLeaks(db: Db, db': Db, i: nat)
    requires db'.dentry == db.dentry
    ensures (Leaked(db', i) <==> Leaked(db, i)) && (Linked(db', i) <==> Linked(db, i))
  {
    SameEntries(db, db');
    assert forall x :: RefersTo(db', Slot(x, ".."), i) <==> RefersTo(db, Slot(x, ".."), i);
  }

  lemma RmdirLeaves(db: Db, db': Db, src: Slot, d: nat)
    requires Tree(db) && Deleted(db, db', src, d) && db.meta[d] == Directory
    ensures d in db'.meta && !Linked(db', d)
    ensures Leaked(db', d) <==> exists x :: RefersTo(db, Slot(x, ".."), d)
  {
    DeleteFacts(db, db', src, d);
    assert Names(db, src, d);
    assert !RefersTo(db, Slot(d, ".."), d) by {
      assert Parent(db, d) == src.parent;
    }
    hide Tree, IsEmpty, Linked;
    if x :| RefersTo(db, Slot(x, ".."), d) {
      assert RefersTo(db', Slot(x, ".."), d);
    }
    if x :| RefersTo(db', Slot(x, ".."), d) {
      assert RefersTo(db, Slot(x, ".."), d);
    }
  }

  /** An inode overwritten by a rename: a directory keeps its own '.' and so has leaked; anything else is there
    * afterwards exactly if it had another name or is held. */
  lemma RenameReclaims(fs: Fs, src: Slot, dst: Slot)
    requires Inv(fs) && Sendable(fs, Rename(src.parent, src.name, dst.parent, dst.name))
    requires DoRename(fs, src, dst).1 == Done && dst in fs.db.dentry
    ensures var o := fs.db.dentry[dst];
      var db := DoRename(fs, src, dst).0.db;
      if o.kind == Directory then Removed(db, o.child) && Leaked(db, o.child)
      else o.child in db.meta <==> (exists s :: RefersTo(fs.db, s, o.child) && s != dst) || o.child in fs.held
  {
    hide Tree, Rows, Naming, Below, Usable, RemoveInode, MoveDentry, Moved, MovedTo, CanMove, Referenced, Leaked,
         Linked;
    TreeRows(fs.db);
    var o := fs.db.dentry[dst];
    MoveAllowed(fs, src, dst);
    var db := Moved(fs.db, src, dst);
    MoveIsMoved(fs.db, src, dst);
    MoveKeepsTree(fs.db, src, dst);
    OverwrittenReferences(fs.db, db, src, dst);
    DroppedOrNot(db, o.child);
    DropKeepsTree(db, o.child);
    SameLeaks(db, DropIfUnreferenced(db, o.child), o.child);
  }

  lemma OverwrittenReferences(db: Db, db': Db, src: Slot, dst: Slot)
    requires Rows(db) && Naming(db) && CanMove(db, src, dst) && MovedTo(db, db', src, dst) && dst in db.dentry
    ensures var o := db.dentry[dst];
      && o.child in db'.meta
      && (o.kind == Directory ==> !Linked(db', o.child) && Leaked(db', o.child) && Referenced(db', o.child))
      && (o.kind != Directory ==>
            (Referenced(db', o.child) <==> exists s :: RefersTo(db, s, o.child) && s != dst))
  {
    MoveNames(db, db', src, dst);
    var o := db.dentry[dst].child;
    assert Names(db, dst, o);
    if db.dentry[dst].kind == Directory {
      assert HasDots(db, o);
      assert RefersTo(db', Slot(o, "."), o);
      assert forall s :: Names(db, s, o) ==> s == dst;
    } else {
      forall s
        ensures RefersTo(db', s, o) <==> RefersTo(db, s, o) && s != dst
      {
      }
    }
  }

  // ---------- Every state is four requests away from a leak ----------

  /** After this run inode i has no name, nobody holds it, and something keeps it. */
  ghost predicate LeaksAfter(fs: Fs, rs: seq<Request>, i: nat) {
    SendableRun(fs, rs) && var fs' := Run(fs, rs); i !in fs'.held && Removed(fs'.db, i) && Leaked(fs'.db, i)
  }

  lemma LeaksOneEarlier(fs: Fs, r: Request, rs: seq<Request>, i: nat)
    requires Sendable(fs, r) && LeaksAfter(Step(fs, r).0, rs, i)
    ensures LeaksAfter(fs, [r] + rs, i)
  {
    hide Sendable, Step, Removed, Leaked;
    assert ([r] + rs)[1..] == rs;
  }

  lemma MkdirWorks(fs: Fs, parent: nat, name: string)
    requires Inv(fs) && LinkedDir(fs.db, parent) && !IsDot(name) && Slot(parent, name) !in fs.db.dentry
    requires fs.db.lastIno + 1 < 0x1_0000_0000 && CountsFit(fs.held)
    ensures Sendable(fs, Mkdir(parent, name))
    ensures var ino, fs' := fs.db.lastIno + 1, Step(fs, Mkdir(parent, name)).0;
      Added(fs.db, fs'.db, parent, name, ino, Directory) && fs'.held == Take(fs.held, ino)
  {
    hide Rows, Dots, Naming, Rooted, Added, Linked, Referenced, NewEntries;
    TreeRows(fs.db);
    NumbersBelow(fs.db);
    LinkedIsReferenced(fs.db, parent);
    AddIsAdded(fs.db, parent, name, Directory);
  }

  lemma NewIsEmpty(db: Db, db': Db, parent: nat, name: string, ino: nat)
    requires FreshIno(db, ino) && parent != ino && Added(db, db', parent, name, ino, Directory)
    ensures IsEmpty(db', ino)
  {
  }

  /** Of two new directories the second is empty and the parent does not lie below the first. */
  lemma TwoDirectories(db: Db, db1: Db, db2: Db, parent: nat, a: string, b: string)
    requires Rows(db) && parent in db.meta && !IsDot(a) && !IsDot(b)
    requires Added(db, db1, parent, a, db.lastIno + 1, Directory)
    requires Rows(db1) && Added(db1, db2, parent, b, db.lastIno + 2, Directory)
    ensures IsEmpty(db2, db.lastIno + 2) && !Below(db2, parent, db.lastIno + 1)
  {
    hide Added, Rows, IsEmpty, FreshIno, Parent;
    AddFresh(db1);
    AddMetaGrows(db, db1, parent, a, db.lastIno + 1);
    NewIsEmpty(db1, db2, parent, b, db.lastIno + 2);
    AddParents(db, db1, parent, a, db.lastIno + 1, Directory);
    AddParents(db1, db2, parent, b, db.lastIno + 2, Directory);
    forall k: nat
      ensures Ancestor(db2, parent, k) != db.lastIno + 1
    {
      AncestorInside(db2, db.meta.Keys, parent, k);
    }
  }

  lemma AddMetaGrows(db: Db, db': Db, parent: nat, name: string, ino: nat)
    requires Rows(db) && Added(db, db', parent, name, ino, Directory)
    ensures ino == db.lastIno + 1 == db'.lastIno && ino !in db.meta
    ensures db'.meta == db.meta[ino := Directory]
    ensures forall i :: i in db.meta ==> i <= db.lastIno
    ensures Slot(parent, name) in db'.dentry && db'.dentry[Slot(parent, name)] == Entry(ino, Directory)
    ensures forall s :: s in db.dentry ==> s in db'.dentry && db'.dentry[s] == db.dentry[s]
    ensures forall n :: !IsDot(n) && n != name && Slot(parent, n) !in db.dentry ==> Slot(parent, n) !in db'.dentry
  {
  }

  lemma {:induction false} AncestorInside(db: Db, good: set<nat>, d: nat, k: nat)
    requires d in good && forall y :: y in good ==> Parent(db, y) in good
    ensures Ancestor(db, d, k) in good
    decreases k
  {
    hide Parent;
    if k > 0 {
      AncestorInside(db, good, Parent(db, d), k - 1);
    }
  }

  /** Make two directories, rename the first over the second, forget the second: by RemovedFate it is there ever
    * after. */
  lemma OverwritingLeaks(fs: Fs, parent: nat, a: string, b: string)
    requires Inv(fs) && LinkedDir(fs.db, parent) && !IsDot(a) && !IsDot(b) && a != b
    requires Slot(parent, a) !in fs.db.dentry && Slot(parent, b) !in fs.db.dentry
    requires fs.db.lastIno + 2 < 0x1_0000_0000 && CountsFit(fs.held)
    ensures var i := fs.db.lastIno + 2;
      LeaksAfter(fs, [Mkdir(parent, a)] + ([Mkdir(parent, b)] + [Rename(parent, a, parent, b), Forget(i, 1)]), i)
  {
    hide Inv, Step, Sendable, LinkedDir, Added, IsEmpty, Below, LeaksAfter, CountsFit, Rows, Take;
    var i := fs.db.lastIno + 2;
    var r1, r2, r3, r4 := Mkdir(parent, a), Mkdir(parent, b), Rename(parent, a, parent, b), Forget(i, 1);
    MkdirWorks(fs, parent, a);
    var fs1 := Step(fs, r1).0;
    StepKeepsInv(fs, r1);
    InvRows(fs);
    AddMetaGrows(fs.db, fs1.db, parent, a, i - 1);
    StillLinked(fs, fs1, parent, a);
    MkdirWorks(fs1, parent, b);
    var fs2 := Step(fs1, r2).0;
    StepKeepsInv(fs1, r2);
    OverwriteLeaks(fs, fs1, fs2, parent, a, b);
    LeaksOneEarlier(fs1, r2, [r3, r4], i);
    LeaksOneEarlier(fs, r1, [r2] + [r3, r4], i);
  }

  lemma StillLinked(fs: Fs, fs1: Fs, parent: nat, a: string)
    requires Rows(fs.db) && LinkedDir(fs.db, parent) && !IsDot(a) && CountsFit(fs.held)
    requires Added(fs.db, fs1.db, parent, a, fs.db.lastIno + 1, Directory)
    requires fs1.held == Take(fs.held, fs.db.lastIno + 1)
    ensures parent in fs.db.meta && LinkedDir(fs1.db, parent)
    ensures CountsFit(fs1.held) || fs.db.lastIno + 1 in fs.held
  {
    AddLinked(fs.db, fs1.db, parent, a, fs.db.lastIno + 1, Directory);
    AddMetaGrows(fs.db, fs1.db, parent, a, fs.db.lastIno + 1);
    hide Linked, Rows, Referenced, Added;
  }

  /** The last two requests, after the first two have led from fs over fs1 to fs2. */
  lemma OverwriteLeaks(fs: Fs, fs1: Fs, fs2: Fs, parent: nat, a: string, b: string)
    requires Inv(fs) && Inv(fs1) && Inv(fs2) && LinkedDir(fs1.db, parent) && parent in fs.db.meta
    requires !IsDot(a) && !IsDot(b) && a != b && CountsFit(fs1.held)
    requires Added(fs.db, fs1.db, parent, a, fs.db.lastIno + 1, Directory)
    requires Added(fs1.db, fs2.db, parent, b, fs.db.lastIno + 2, Directory)
    requires fs2.held == Take(fs1.held, fs.db.lastIno + 2)
    ensures var i := fs.db.lastIno + 2; LeaksAfter(fs2, [Rename(parent, a, parent, b), Forget(i, 1)], i)
  {
    hide Inv, LinkedDir, Added, IsEmpty, Below, LeaksAfter, Rows, Step, Sendable, Removed, Leaked;
    var i := fs.db.lastIno + 2;
    var r3, r4 := Rename(parent, a, parent, b), Forget(i, 1);
    InvRows(fs);
    InvRows(fs1);
    AddMetaGrows(fs.db, fs1.db, parent, a, i - 1);
    AddMetaGrows(fs1.db, fs2.db, parent, b, i);
    TwoDirectories(fs.db, fs1.db, fs2.db, parent, a, b);
    StillLinked(fs1, fs2, parent, b);
    OverwriteWorks(fs2, parent, a, b);
    var fs3 := Step(fs2, r3).0;
    LeakedIsForgotten(fs3, i);
    LeaksNow(Step(fs3, r4).0, i);
    assert [r4] + [] == [r4] && [r3] + [r4] == [r3, r4];
    LeaksOneEarlier(fs3, r4, [], i);
    LeaksOneEarlier(fs2, r3, [r4], i);
  }

  lemma LeaksNow(fs: Fs, i: nat)
    requires i !in fs.held && Removed(fs.db, i) && Leaked(fs.db, i)
    ensures LeaksAfter(fs, [], i)
  {
  }

  lemma OverwriteWorks(fs: Fs, parent: nat, a: string, b: string)
    requires Inv(fs) && LinkedDir(fs.db, parent) && !IsDot(a) && !IsDot(b) && CountsFit(fs.held)
    requires var src, dst := Slot(parent, a), Slot(parent, b);
      && src in fs.db.dentry && dst in fs.db.dentry && fs.db.dentry[src].child != fs.db.dentry[dst].child
      && fs.db.dentry[src].kind == fs.db.dentry[dst].kind == Directory && IsEmpty(fs.db, fs.db.dentry[dst].child)
      && !Below(fs.db, parent, fs.db.dentry[src].child) && fs.db.dentry[dst].child in fs.held
    ensures Sendable(fs, Rename(parent, a, parent, b))
    ensures var fs' := Step(fs, Rename(parent, a, parent, b)).0;
      var i := fs.db.dentry[Slot(parent, b)].child;
      Inv(fs') && fs'.held == fs.held && Removed(fs'.db, i) && Leaked(fs'.db, i)
  {
    hide Inv, Leaked, IsEmpty, Below, Moved, Linked, Removed;
    var src, dst := Slot(parent, a), Slot(parent, b);
    StepKeepsInv(fs, Rename(parent, a, parent, b));
    RenameReclaims(fs, src, dst);
  }

  lemma LeakedIsForgotten(fs: Fs, i: nat)
    requires Inv(fs) && Removed(fs.db, i) && Leaked(fs.db, i) && i in fs.held && fs.held[i] == 1 && CountsFit(fs.held)
    ensures Sendable(fs, Forget(i, 1))
    ensures var fs' := Step(fs, Forget(i, 1)).0; i !in fs'.held && Removed(fs'.db, i) && Leaked(fs'.db, i)
  {
    hide Tree, Leaked, Linked, DropIfUnreferenced, KeepsRemoved;
    StepKeepsInv(fs, Forget(i, 1));
    StepKeepsRemoved(fs, Forget(i, 1));
    RemovedStays(fs.db, Step(fs, Forget(i, 1)).0.db, i);
  }

  /** So a new database can come to hold a directory that nothing will ever remove. */
  lemma NewDbCanLeak()
    ensures Inv(Fs(NEW_DB, map[]))
    ensures LeaksAfter(Fs(NEW_DB, map[]), [Mkdir(ROOT, "a")] + ([Mkdir(ROOT, "b")] +
                                          [Rename(ROOT, "a", ROOT, "b"), Forget(3, 1)]), 3)
  {
    hide LeaksAfter, Tree;
    NewDbIsTree();
    DotRefers(NEW_DB, ROOT);
    OverwritingLeaks(Fs(NEW_DB, map[]), ROOT, "a", "b");
  }
}
