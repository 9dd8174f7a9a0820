/** The requests of the kernel on names and inodes, and how long an inode lives
  * (src/filesystem.rs:210-300, 464-781, 1277-1362). */
module Lifetime {
  import opened Wrappers
  import opened Bytes
  import opened Namespace

  /** The tables together with the lookup counts: `held[i]` references to inode i have been given out. */
  datatype Fs = Fs(db: Db, held: map<nat, nat>)

  datatype Request =
    | Lookup(parent: nat, name: string)
    | Forget(ino: nat, n: nat)
    | Mkdir(parent: nat, name: string)
    | Create(parent: nat, name: string)
    | MakeSymlink(parent: nat, name: string, text: bytes)
    | Link(ino: nat, parent: nat, name: string)
    | Unlink(parent: nat, name: string)
    | Rmdir(parent: nat, name: string)
    | Rename(parent: nat, name: string, newParent: nat, newName: string)

  datatype Errno = ENOENT | EPERM | EEXIST | ENOTEMPTY | EISDIR | ENOTDIR | ENAMETOOLONG

  datatype Reply = Inode(ino: nat) | Done | Fails(errno: Errno)

  function Count(held: map<nat, nat>, i: nat): nat {
    if i in held then held[i] else 0
  }

  function Take(held: map<nat, nat>, i: nat): map<nat, nat> {
    held[i := Count(held, i) + 1]
  }

  /** get_inode succeeds: the link count of an inode that nothing refers to is NULL and not readable. */
  ghost predicate CanGetInode(db: Db, i: nat) {
    i in db.meta && Referenced(db, i)
  }

  /** After an entry has gone: an inode the kernel does not hold is dropped if nothing refers to it. */
  ghost function Reclaim(fs: Fs, i: nat): Fs {
    if i in fs.held then fs else fs.(db := DropIfUnreferenced(fs.db, i))
  }

  // ---------- What each request does ----------

  ghost function DoLookup(fs: Fs, parent: nat, name: string): (Fs, Reply) {
    if Slot(parent, name) in fs.db.dentry then
      var child := fs.db.dentry[Slot(parent, name)].child;
      (fs.(held := Take(fs.held, child)), Inode(child))
    else (fs, Fails(ENOENT))
  }

  /** forget takes back `n` references; the count must not fall below zero. */
  ghost function DoForget(fs: Fs, ino: nat, n: nat): Fs
    requires n <= Count(fs.held, ino)
  {
    var c := Count(fs.held, ino) - n;
    if c == 0 then Fs(DropIfUnreferenced(fs.db, ino), fs.held - {ino})
    else fs.(held := fs.held[ino := c])
  }

  ghost function DoMkdir(fs: Fs, parent: nat, name: string): (Fs, Reply) {
    if !CanGetInode(fs.db, parent) then (fs, Fails(ENOENT)) else DoAdd(fs, parent, name, Directory)
  }

  function DoAdd(fs: Fs, parent: nat, name: string, kind: Kind): (Fs, Reply) {
    match AddInodeAndDentry(fs.db, parent, name, kind)
    case Err(_) => (fs, Fails(ENOENT))
    case Ok((db, ino)) => (Fs(db, Take(fs.held, ino)), Inode(ino))
  }

  ghost function DoCreate(fs: Fs, parent: nat, name: string): (Fs, Reply) {
    if Slot(parent, name) in fs.db.dentry then DoLookup(fs, parent, name)
    else if !CanGetInode(fs.db, parent) then (fs, Fails(ENOENT))
    else DoAdd(fs, parent, name, RegularFile)
  }

  /** A link text longer than a block is refused only after the inode and its entry have been made. */
  function DoSymlink(fs: Fs, parent: nat, name: string, text: bytes): (Fs, Reply) {
    match AddInodeAndDentry(fs.db, parent, name, Symlink)
    case Err(_) => (fs, Fails(ENOENT))
    case Ok((db, ino)) =>
      if |text| > 4096 then (fs.(db := db), Fails(ENAMETOOLONG))
      else (Fs(db, Take(fs.held, ino)), Inode(ino))
  }

  ghost function DoLink(fs: Fs, ino: nat, parent: nat, name: string): (Fs, Reply) {
    match LinkDentry(fs.db, ino, parent, name)
    case Err(NotRegular) => (fs, Fails(EPERM))
    case Err(Exists) => (fs, Fails(EEXIST))
    case Err(_) => (fs, Fails(ENOENT))
    case Ok(db) => (Fs(db, Take(fs.held, ino)), Inode(ino))
  }

  ghost function DoUnlink(fs: Fs, parent: nat, name: string): (Fs, Reply) {
    match DeleteDentry(fs.db, parent, name)
    case Err(_) => (fs, Fails(ENOENT))
    case Ok((db, ino)) => (Reclaim(fs.(db := db), ino), Done)
  }

  ghost function DoRmdir(fs: Fs, parent: nat, name: string): (Fs, Reply) {
    if Slot(parent, name) !in fs.db.dentry then (fs, Fails(ENOENT))
    else if !IsEmpty(fs.db, fs.db.dentry[Slot(parent, name)].child) then (fs, Fails(ENOTEMPTY))
    else DoUnlink(fs, parent, name)
  }

  ghost function DoRename(fs: Fs, src: Slot, dst: Slot): (Fs, Reply) {
    match MoveDentry(fs.db, src, dst)
    case Err(NotEmpty) => (fs, Fails(ENOTEMPTY))
    case Err(IsDir) => (fs, Fails(EISDIR))
    case Err(IsNotDir) => (fs, Fails(ENOTDIR))
    case Err(_) => (fs, Fails(ENOENT))
    case Ok((db, overwritten)) =>
      match overwritten
      case None => (fs.(db := db), Done)
      case Some(ino) => (Reclaim(fs.(db := db), ino), Done)
  }

  // ---------- What the kernel has checked before it sends a request ----------

  /** A directory that is linked, or an inode that has gone in the meantime. */
  ghost predicate Usable(db: Db, parent: nat) {
    LinkedDir(db, parent) || (parent !in db.meta && parent <= db.lastIno)
  }

  /** mkdir and create look the parent up first and so refuse a removed directory themselves. */
  ghost predicate UsableOrRemoved(db: Db, parent: nat) {
    Usable(db, parent) || !Referenced(db, parent)
  }

  /** Lookup counts stay 32-bit numbers. */
  ghost predicate CountsFit(held: map<nat, nat>) {
    forall i :: i in held ==> held[i] < 0xFFFF_FFFF
  }

  /** The names '.' and '..' are resolved by the kernel; it holds what it gives back; no link is put into a
    * removed directory; unlink is not for directories; rename is between different inodes and never moves a
    * directory below itself. */
  ghost predicate Sendable(fs: Fs, r: Request) {
    && CountsFit(fs.held)
    && match r
       case Lookup(_, _) => true
       case Forget(ino, n) => n <= Count(fs.held, ino)
       case Mkdir(parent, name) => !IsDot(name) && UsableOrRemoved(fs.db, parent)
       case Create(parent, name) => !IsDot(name) && UsableOrRemoved(fs.db, parent)
       case MakeSymlink(parent, name, _) => !IsDot(name) && Usable(fs.db, parent)
       case Link(_, parent, name) => !IsDot(name) && Usable(fs.db, parent)
       case Unlink(parent, name) =>
         !IsDot(name) &&
         (Slot(parent, name) in fs.db.dentry ==> fs.db.dentry[Slot(parent, name)].kind != Directory)
       case Rmdir(parent, name) => !IsDot(name)
       case Rename(parent, name, newParent, newName) =>
         var src, dst := Slot(parent, name), Slot(newParent, newName);
         && !IsDot(name) && !IsDot(newName) && Usable(fs.db, newParent)
         && (src in fs.db.dentry && dst in fs.db.dentry ==> fs.db.dentry[src].child != fs.db.dentry[dst].child)
         && (src in fs.db.dentry && fs.db.dentry[src].kind == Directory ==>
               !Below(fs.db, newParent, fs.db.dentry[src].child))
  }

  ghost function Step(fs: Fs, r: Request): (Fs, Reply)
    requires Sendable(fs, r)
  {
    match r
    case Lookup(parent, name) => DoLookup(fs, parent, name)
    case Forget(ino, n) => (DoForget(fs, ino, n), Done)
    case Mkdir(parent, name) => DoMkdir(fs, parent, name)
    case Create(parent, name) => DoCreate(fs, parent, name)
    case MakeSymlink(parent, name, text) => DoSymlink(fs, parent, name, text)
    case Link(ino, parent, name) => DoLink(fs, ino, parent, name)
    case Unlink(parent, name) => DoUnlink(fs, parent, name)
    case Rmdir(parent, name) => DoRmdir(fs, parent, name)
    case Rename(parent, name, newParent, newName) => DoRename(fs, Slot(parent, name), Slot(newParent, newName))
  }

  /** A request that fails changes nothing, except a symlink whose text is refused: its inode and its entry stay. */
  lemma FailuresChangeNothing(fs: Fs, r: Request)
    requires Sendable(fs, r)
    ensures var (fs', reply) := Step(fs, r);
      && (reply == Fails(ENAMETOOLONG) <==>
            r.MakeSymlink? && |r.text| > 4096 && AddInodeAndDentry(fs.db, r.parent, r.name, Symlink).Ok?)
      && (reply.Fails? ==>
            fs' == if reply.errno != ENAMETOOLONG then fs
                   else fs.(db := AddInodeAndDentry(fs.db, r.parent, r.name, Symlink).value.0))
  {
    hide AddInodeAndDentry, LinkDentry, DeleteDentry, MoveDentry, DropIfUnreferenced, IsEmpty, CanGetInode, Take;
  }

  // ---------- The invariant ----------

  /** What the kernel holds is there, and no count of zero is stored: having a count means being held. */
  ghost predicate HeldPresent(fs: Fs) {
    forall i :: i in fs.held ==> fs.held[i] > 0 && i in fs.db.meta
  }

  /** Every inode is the child of some entry or held by the kernel. */
  ghost predicate NoOrphans(fs: Fs) {
    forall i :: i in fs.db.meta ==> Referenced(fs.db, i) || i in fs.held
  }

  ghost predicate Inv(fs: Fs) {
    Tree(fs.db) && HeldPresent(fs) && NoOrphans(fs)
  }

  /** Inode numbers only grow, an old number never comes back, and an inode keeps its kind. */
  ghost predicate Numbers(db: Db, db': Db) {
    && db.lastIno <= db'.lastIno
    && (forall i :: i in db'.meta && i !in db.meta ==> i > db.lastIno)
    && (forall i :: i in db'.meta && i in db.meta ==> db'.meta[i] == db.meta[i])
  }

  lemma TakeKeepsInv(fs: Fs, i: nat)
    requires Inv(fs) && i in fs.db.meta
    ensures Inv(fs.(held := Take(fs.held, i)))
  {
    hide Tree, Referenced;
  }

  lemma ReclaimKeepsInv(fs: Fs, i: nat)
    requires Tree(fs.db) && HeldPresent(fs)
    requires forall j :: j in fs.db.meta && j != i ==> Referenced(fs.db, j) || j in fs.held
    ensures Inv(Reclaim(fs, i)) && Numbers(fs.db, Reclaim(fs, i).db)
  {
    hide Tree, Referenced, DropIfUnreferenced;
    DropKeepsTree(fs.db, i);
  }

  lemma AddStep(fs: Fs, parent: nat, name: string, kind: Kind)
    requires Inv(fs) && Usable(fs.db, parent) && !IsDot(name)
    requires AddInodeAndDentry(fs.db, parent, name, kind).Ok?
    ensures var (db, ino) := AddInodeAndDentry(fs.db, parent, name, kind).value;
      && Inv(fs.(db := db)) && ino in db.meta && Numbers(fs.db, db)
      && ino !in fs.db.meta
  {
    hide Tree, Referenced, LinkedDir, AddInodeAndDentry;
    UsableIsKnown(fs.db, parent);
    AddNeedsParent(fs.db, parent, name, kind);
    NumbersBelow(fs.db);
    AddKeepsTree(fs.db, parent, name, kind);
  }

  lemma UsableIsKnown(db: Db, parent: nat)
    requires Usable(db, parent) && Tree(db)
    ensures parent <= db.lastIno
  {
  }

  lemma AddNeedsParent(db: Db, parent: nat, name: string, kind: Kind)
    requires AddInodeAndDentry(db, parent, name, kind).Ok? && parent <= db.lastIno
    ensures parent in db.meta
  {
  }

  lemma LinkNeedsParent(db: Db, ino: nat, parent: nat, name: string)
    requires LinkDentry(db, ino, parent, name).Ok?
    ensures parent in db.meta
  {
  }

  lemma TreeRows(db: Db)
    requires Tree(db)
    ensures Rows(db) && Naming(db)
  {
  }

  lemma NumbersBelow(db: Db)
    requires Tree(db)
    ensures forall i :: i in db.meta ==> i <= db.lastIno
  {
  }

  lemma LinkStep(fs: Fs, ino: nat, parent: nat, name: string)
    requires Inv(fs) && Usable(fs.db, parent) && !IsDot(name)
    requires LinkDentry(fs.db, ino, parent, name).Ok?
    ensures var db := LinkDentry(fs.db, ino, parent, name).value;
      Inv(fs.(db := db)) && ino in db.meta && Numbers(fs.db, db)
  {
    hide Tree, Referenced, LinkedDir, LinkDentry;
    LinkNeedsParent(fs.db, ino, parent, name);
    LinkKeepsTree(fs.db, ino, parent, name);
  }

  lemma DeleteStep(fs: Fs, parent: nat, name: string)
    requires Inv(fs) && !IsDot(name) && DeleteDentry(fs.db, parent, name).Ok?
    requires IsEmpty(fs.db, DeleteDentry(fs.db, parent, name).value.1)
    ensures Inv(DoUnlink(fs, parent, name).0) && Numbers(fs.db, DoUnlink(fs, parent, name).0.db)
  {
    hide Tree, Referenced, IsEmpty, DeleteDentry, DropIfUnreferenced;
    var (db, ino) := DeleteDentry(fs.db, parent, name).value;
    DeleteKeepsTree(fs.db, parent, name);
    ReclaimKeepsInv(fs.(db := db), ino);
  }

  lemma FilesAreEmpty(db: Db, s: Slot)
    requires Rows(db) && s in db.dentry && db.dentry[s].kind != Directory
    ensures IsEmpty(db, db.dentry[s].child)
  {
  }

  lemma RenameStep(fs: Fs, src: Slot, dst: Slot)
    requires Inv(fs) && Sendable(fs, Rename(src.parent, src.name, dst.parent, dst.name))
    ensures Inv(DoRename(fs, src, dst).0) && Numbers(fs.db, DoRename(fs, src, dst).0.db)
  {
    hide Tree, Rows, Referenced, MoveDentry, CanMove, DropIfUnreferenced, Moved, Usable, Below;
    TreeRows(fs.db);
    if MoveDentry(fs.db, src, dst).Ok? {
      MoveAllowed(fs, src, dst);
      MoveKeepsTree(fs.db, src, dst);
      var (db, overwritten) := MoveDentry(fs.db, src, dst).value;
      match overwritten {
        case None =>
        case Some(ino) => ReclaimKeepsInv(fs.(db := db), ino);
      }
    }
  }

  /** A rename that the kernel sends and move_dentry carries out is one that keeps the tree. */
  lemma MoveAllowed(fs: Fs, src: Slot, dst: Slot)
    requires Rows(fs.db) && Sendable(fs, Rename(src.parent, src.name, dst.parent, dst.name))
    requires MoveDentry(fs.db, src, dst).Ok?
    ensures src in fs.db.dentry && CanMove(fs.db, src, dst)
    ensures MoveDentry(fs.db, src, dst).value
         == (Moved(fs.db, src, dst), if dst in fs.db.dentry then Some(fs.db.dentry[dst].child) else None)
  {
    hide Moved, Below;
    if dst in fs.db.dentry && fs.db.dentry[dst].kind != Directory {
      FilesAreEmpty(fs.db, dst);
    }
  }

  /** When a rename succeeds. A file and a symbolic link do not replace each other. */
  lemma RenameSucceeds(fs: Fs, src: Slot, dst: Slot)
    requires Inv(fs) && Sendable(fs, Rename(src.parent, src.name, dst.parent, dst.name))
    ensures DoRename(fs, src, dst).1 == Done
      <==> && src in fs.db.dentry && dst.parent in fs.db.meta
           && (dst in fs.db.dentry ==>
                 && fs.db.dentry[dst].kind == fs.db.dentry[src].kind
                 && (fs.db.dentry[dst].kind == Directory ==> IsEmpty(fs.db, fs.db.dentry[dst].child)))
  {
    hide Tree, Usable, Below, IsEmpty, Moved;
  }

  /** Every request keeps the tree, the presence of held inodes, the absence of orphans, and the numbering. */
  lemma StepKeepsInv(fs: Fs, r: Request)
    requires Inv(fs) && Sendable(fs, r)
    ensures Inv(Step(fs, r).0) && Numbers(fs.db, Step(fs, r).0.db)
  {
    hide Tree, Referenced, AddInodeAndDentry, LinkDentry, DeleteDentry, MoveDentry, DropIfUnreferenced, Usable;
    match r {
      case Lookup(parent, name) =>
        LookupStep(fs, parent, name);
      case Forget(ino, n) =>
        ForgetStep(fs, ino, n);
      case Mkdir(parent, name) =>
        if CanGetInode(fs.db, parent) && AddInodeAndDentry(fs.db, parent, name, Directory).Ok? {
          AddTakeStep(fs, parent, name, Directory);
        }
      case Create(parent, name) =>
        LookupStep(fs, parent, name);
        if CanGetInode(fs.db, parent) && AddInodeAndDentry(fs.db, parent, name, RegularFile).Ok? {
          AddTakeStep(fs, parent, name, RegularFile);
        }
      case MakeSymlink(parent, name, text) =>
        if AddInodeAndDentry(fs.db, parent, name, Symlink).Ok? {
          AddStep(fs, parent, name, Symlink);
          AddTakeStep(fs, parent, name, Symlink);
        }
      case Link(ino, parent, name) =>
        if LinkDentry(fs.db, ino, parent, name).Ok? {
          LinkStep(fs, ino, parent, name);
          TakeKeepsInv(fs.(db := LinkDentry(fs.db, ino, parent, name).value), ino);
        }
      case Unlink(parent, name) =>
        UnlinkStep(fs, parent, name);
      case Rmdir(parent, name) =>
        RmdirStep(fs, parent, name);
      case Rename(parent, name, newParent, newName) =>
        RenameStep(fs, Slot(parent, name), Slot(newParent, newName));
    }
  }

  lemma LookupStep(fs: Fs, parent: nat, name: string)
    requires Inv(fs)
    ensures Inv(DoLookup(fs, parent, name).0) && DoLookup(fs, parent, name).0.db == fs.db
  {
    if Slot(parent, name) in fs.db.dentry {
      TakeKeepsInv(fs, fs.db.dentry[Slot(parent, name)].child);
    }
  }

  lemma ForgetStep(fs: Fs, ino: nat, n: nat)
    requires Inv(fs) && n <= Count(fs.held, ino)
    ensures Inv(DoForget(fs, ino, n)) && Numbers(fs.db, DoForget(fs, ino, n).db)
  {
    hide Tree, Referenced, DropIfUnreferenced;
    if Count(fs.held, ino) == n {
      ReclaimKeepsInv(fs.(held := fs.held - {ino}), ino);
    }
  }

  lemma AddTakeStep(fs: Fs, parent: nat, name: string, kind: Kind)
    requires Inv(fs) && Usable(fs.db, parent) && !IsDot(name)
    requires AddInodeAndDentry(fs.db, parent, name, kind).Ok?
    ensures Inv(DoAdd(fs, parent, name, kind).0) && Numbers(fs.db, DoAdd(fs, parent, name, kind).0.db)
  {
    hide Tree, Referenced, AddInodeAndDentry, Usable;
    AddStep(fs, parent, name, kind);
    var (db, ino) := AddInodeAndDentry(fs.db, parent, name, kind).value;
    TakeKeepsInv(fs.(db := db), ino);
  }

  lemma UnlinkStep(fs: Fs, parent: nat, name: string)
    requires Inv(fs) && !IsDot(name)
    requires Slot(parent, name) in fs.db.dentry ==> fs.db.dentry[Slot(parent, name)].kind != Directory
    ensures Inv(DoUnlink(fs, parent, name).0) && Numbers(fs.db, DoUnlink(fs, parent, name).0.db)
  {
    if Slot(parent, name) in fs.db.dentry {
      FilesAreEmpty(fs.db, Slot(parent, name));
      DeleteStep(fs, parent, name);
    }
  }

  lemma RmdirStep(fs: Fs, parent: nat, name: string)
    requires Inv(fs) && !IsDot(name)
    ensures Inv(DoRmdir(fs, parent, name).0) && Numbers(fs.db, DoRmdir(fs, parent, name).0.db)
  {
    if Slot(parent, name) in fs.db.dentry && IsEmpty(fs.db, fs.db.dentry[Slot(parent, name)].child) {
      DeleteStep(fs, parent, name);
    }
  }

  // ---------- Whole runs ----------

  ghost predicate SendableRun(fs: Fs, rs: seq<Request>)
    decreases |rs|
  {
    rs == [] || (Sendable(fs, rs[0]) && SendableRun(Step(fs, rs[0]).0, rs[1..]))
  }

  ghost function Run(fs: Fs, rs: seq<Request>): Fs
    requires SendableRun(fs, rs)
    decreases |rs|
  {
    if rs == [] then fs else Run(Step(fs, rs[0]).0, rs[1..])
  }

  /** The invariant holds after every run, and numbers have the same guarantees over the run as over a step:
    * an inode that was there and is there still has its kind, and a number that had been given out is never
    * given to another file. */
  lemma {:induction false} RunKeepsInv(fs: Fs, rs: seq<Request>)
    requires Inv(fs) && SendableRun(fs, rs)
    ensures Inv(Run(fs, rs)) && Numbers(fs.db, Run(fs, rs).db)
    decreases |rs|
  {
    hide Inv, Step, Sendable;
    if rs != [] {
      var next := Step(fs, rs[0]).0;
      StepKeepsInv(fs, rs[0]);
      RunKeepsInv(next, rs[1..]);
      KnownNumbers(fs);
      KnownNumbers(next);
    }
  }

  lemma RunNothing(fs: Fs)
    ensures SendableRun(fs, []) && Run(fs, []) == fs
  {
  }

  lemma {:induction false} RunSnoc(fs: Fs, rs: seq<Request>, r: Request)
    requires SendableRun(fs, rs) && Sendable(Run(fs, rs), r)
    ensures SendableRun(fs, rs + [r]) && Run(fs, rs + [r]) == Step(Run(fs, rs), r).0
    decreases |rs|
  {
    hide Sendable, Step;
    if rs == [] {
      assert [] + [r] == [r] && [r][1..] == [];
    } else {
      RunSnoc(Step(fs, rs[0]).0, rs[1..], r);
      assert (rs + [r])[1..] == rs[1..] + [r];
    }
  }

  lemma KnownNumbers(fs: Fs)
    requires Inv(fs)
    ensures forall i :: i in fs.db.meta ==> i <= fs.db.lastIno
  {
    hide Tree;
    NumbersBelow(fs.db);
  }

  /** Once an inode has gone its number never comes back. */
  lemma GoneStaysGone(fs: Fs, rs: seq<Request>, more: seq<Request>, i: nat)
    requires Inv(fs) && SendableRun(fs, rs) && SendableRun(Run(fs, rs), more)
    requires i in fs.db.meta && i !in Run(fs, rs).db.meta
    ensures i !in Run(Run(fs, rs), more).db.meta
  {
    hide Inv, Run, SendableRun;
    RunKeepsInv(fs, rs);
    RunKeepsInv(Run(fs, rs), more);
    KnownNumbers(fs);
  }

  /** A run up to any point and from there on is the whole run. */
  lemma {:induction false} RunSplit(fs: Fs, rs: seq<Request>, k: nat)
    requires k <= |rs| && SendableRun(fs, rs)
    ensures SendableRun(fs, rs[..k]) && SendableRun(Run(fs, rs[..k]), rs[k..])
    ensures Run(Run(fs, rs[..k]), rs[k..]) == Run(fs, rs)
    decreases k
  {
    hide Sendable, Step;
    if k > 0 {
      var next := Step(fs, rs[0]).0;
      RunSplit(next, rs[1..], k - 1);
      assert rs[..k][1..] == rs[1..][..k - 1] && rs[1..][k - 1..] == rs[k..];
      assert rs[..k][0] == rs[0];
    } else {
      assert rs[..0] == [] && rs[0..] == rs;
    }
  }

  /** So an inode that is held before and after a run has been there, as the same file, all the time. */
  lemma HeldIsTheSameFile(fs: Fs, rs: seq<Request>, i: nat, k: nat)
    requires Inv(fs) && SendableRun(fs, rs) && k <= |rs|
    requires i in fs.held && i in Run(fs, rs).held
    ensures SendableRun(fs, rs[..k])
    ensures i in fs.db.meta && i in Run(fs, rs[..k]).db.meta && Run(fs, rs[..k]).db.meta[i] == fs.db.meta[i]
  {
    hide Tree, NoOrphans, Run, SendableRun;
    RunSplit(fs, rs, k);
    RunKeepsInv(fs, rs);
    RunKeepsInv(fs, rs[..k]);
    if i !in Run(fs, rs[..k]).db.meta {
      GoneStaysGone(fs, rs[..k], rs[k..], i);
    }
  }

  // ---------- Mount and unmount ----------

  /** A new database: the root and its dots. */
  const NEW_DB := Db(map[ROOT := Directory],
                     map[Slot(ROOT, ".") := Entry(ROOT, Directory), Slot(ROOT, "..") := Entry(ROOT, Directory)],
                     ROOT)

  lemma NewDbIsTree()
    ensures Tree(NEW_DB)
  {
    assert Ancestor(NEW_DB, ROOT, 0) == ROOT;
    forall s, i | RefersTo(NEW_DB, s, i)
      ensures IsDot(s.name)
    {
    }
  }

  /** delete_all_noref_inode */
  ghost function DropAll(db: Db): Db {
    var meta := map i | i in db.meta && Referenced(db, i) :: db.meta[i];
    Db(meta, map s | s in db.dentry && s.parent in meta && db.dentry[s].child in meta :: db.dentry[s], db.lastIno)
  }

  /** Mounting removes the orphans and establishes the invariant; no entry is lost. */
  lemma MountEstablishesInv(db: Db)
    requires Tree(db)
    ensures Inv(Fs(DropAll(db), map[])) && Numbers(db, DropAll(db)) && DropAll(db).dentry == db.dentry
  {
    hide Naming, Rooted, Referenced;
    var db' := DropAll(db);
    EntriesAreReferenced(db);
    assert db'.dentry == db.dentry;
    SameEntries(db, db');
    DropRooted(db, db');
  }

  lemma EntriesAreReferenced(db: Db)
    requires Dots(db)
    ensures Referenced(db, ROOT)
    ensures forall s :: s in db.dentry ==> Referenced(db, s.parent) && Referenced(db, db.dentry[s].child)
  {
    hide HasDots, Referenced;
    DotRefers(db, ROOT);
    forall s | s in db.dentry
      ensures Referenced(db, s.parent) && Referenced(db, db.dentry[s].child)
    {
      Refers(db, s);
      DotRefers(db, s.parent);
    }
  }

  lemma DotRefers(db: Db, d: nat)
    requires HasDots(db, d)
    ensures Referenced(db, d)
  {
    assert RefersTo(db, Slot(d, "."), d);
  }

  lemma Refers(db: Db, s: Slot)
    requires s in db.dentry
    ensures Referenced(db, db.dentry[s].child)
  {
    assert RefersTo(db, s, db.dentry[s].child);
  }

  /** Dropping every held inode that nothing refers to leaves no orphan behind. */
  ghost predicate DroppedSome(db: Db, db': Db, keys: set<nat>) {
    && Tree(db') && db'.dentry == db.dentry && db'.lastIno == db.lastIno
    && (forall j :: Referenced(db', j) <==> Referenced(db, j))
    && (forall i :: i in db'.meta <==> i in db.meta && (Referenced(db, i) || i !in keys))
    && (forall i :: i in db'.meta ==> db'.meta[i] == db.meta[i])
  }

  lemma DropOneMore(db: Db, db': Db, keys: set<nat>, i: nat)
    requires DroppedSome(db, db', keys)
    ensures DroppedSome(db, DropIfUnreferenced(db', i), keys + {i})
  {
    hide Tree, Referenced, DropIfUnreferenced;
    DropKeepsTree(db', i);
  }
}
