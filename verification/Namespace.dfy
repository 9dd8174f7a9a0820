/** Directory entries, inodes and the transactions on them (src/db_module/sqlite.rs:355-372, 863-896,
  * 961-975, 1012-1145). */
module Namespace {
  import opened Wrappers

  datatype Kind = Directory | RegularFile | Symlink

  /** Primary key of the dentry table. */
  datatype Slot = Slot(parent: nat, name: string)

  datatype Entry = Entry(child: nat, kind: Kind)

  /** metadata (kinds only), dentry, and the highest inode number AUTOINCREMENT has handed out. */
  datatype Db = Db(meta: map<nat, Kind>, dentry: map<Slot, Entry>, lastIno: nat)

  const ROOT: nat := 1

  predicate IsDot(name: string) {
    name == "." || name == ".."
  }

  // ---------- The shape of a well-formed directory tree ----------

  ghost predicate RefersTo(db: Db, s: Slot, i: nat) {
    s in db.dentry && db.dentry[s].child == i
  }

  /** Some entry has `i` as its child; otherwise the link count is zero. */
  ghost predicate Referenced(db: Db, i: nat) {
    exists s :: RefersTo(db, s, i)
  }

  ghost predicate Names(db: Db, s: Slot, i: nat) {
    RefersTo(db, s, i) && !IsDot(s.name)
  }

  /** The root, or named by an entry other than '.' and '..'. */
  ghost predicate Linked(db: Db, i: nat) {
    i == ROOT || exists s :: Names(db, s, i)
  }

  ghost predicate LinkedDir(db: Db, d: nat) {
    d in db.meta && db.meta[d] == Directory && Linked(db, d)
  }

  /** Foreign keys hold, entry types agree with inode kinds, only directories have entries, and dots lead to
    * directories. */
  ghost predicate Rows(db: Db) {
    && ROOT in db.meta && db.meta[ROOT] == Directory
    && (forall i :: i in db.meta ==> 1 <= i <= db.lastIno)
    && (forall s :: s in db.dentry ==>
          && s.parent in db.meta && db.meta[s.parent] == Directory
          && db.dentry[s].child in db.meta && db.dentry[s].kind == db.meta[db.dentry[s].child]
          && (IsDot(s.name) ==> db.dentry[s].kind == Directory))
  }

  ghost predicate HasDots(db: Db, d: nat) {
    && Slot(d, ".") in db.dentry && db.dentry[Slot(d, ".")].child == d
    && Slot(d, "..") in db.dentry
  }

  /** A directory with any entry at all has '.', which is itself, and '..'; the root's '..' is the root. */
  ghost predicate Dots(db: Db) {
    && HasDots(db, ROOT) && Parent(db, ROOT) == ROOT
    && forall s :: s in db.dentry ==> HasDots(db, s.parent)
  }

  /** The child of '..'. */
  ghost function Parent(db: Db, d: nat): nat {
    if Slot(d, "..") in db.dentry then db.dentry[Slot(d, "..")].child else d
  }

  /** Named entries stand in linked directories and never name the root. */
  ghost predicate NamesInTree(db: Db) {
    forall s, i :: Names(db, s, i) ==> i != ROOT && Linked(db, s.parent)
  }

  /** A named directory has its dots, and its '..' is the directory that names it. */
  ghost predicate ParentsName(db: Db) {
    forall s, i :: Names(db, s, i) && db.dentry[s].kind == Directory ==> HasDots(db, i) && Parent(db, i) == s.parent
  }

  /** A directory is named once. */
  ghost predicate NamedOnce(db: Db) {
    forall s, s', i :: Names(db, s, i) && Names(db, s', i) && db.dentry[s].kind == Directory ==> s == s'
  }

  ghost predicate Naming(db: Db) {
    NamesInTree(db) && ParentsName(db) && NamedOnce(db)
  }

  ghost function Ancestor(db: Db, d: nat, k: nat): nat
    decreases k
  {
    if k == 0 then d else Ancestor(db, Parent(db, d), k - 1)
  }

  /** Following '..' often enough leads to the root. */
  ghost predicate ReachesRoot(db: Db, d: nat) {
    exists k: nat :: Ancestor(db, d, k) == ROOT
  }

  ghost predicate Rooted(db: Db) {
    forall d :: LinkedDir(db, d) ==> ReachesRoot(db, d)
  }

  /** The linked directories form a tree. */
  ghost predicate Tree(db: Db) {
    Rows(db) && Dots(db) && Naming(db) && Rooted(db)
  }

  /** d is x or lies below x. */
  ghost predicate Below(db: Db, d: nat, x: nat) {
    exists k: nat :: Ancestor(db, d, k) == x
  }

  // ---------- The transactions ----------

  datatype DbError = NoEnt | NotRegular | Exists | IsDir | IsNotDir | NotEmpty | OtherType | Sql

  datatype Result<+T> = Ok(value: T) | Err(error: DbError)

  function NewEntries(parent: nat, name: string, ino: nat, kind: Kind): map<Slot, Entry> {
    map[Slot(parent, name) := Entry(ino, kind)] +
    if kind == Directory then map[Slot(ino, "..") := Entry(parent, kind), Slot(ino, ".") := Entry(ino, kind)]
    else map[]
  }

  /** add_inode_and_dentry; inode numbers are read back as 32-bit numbers. The entry comes after the inode, so its
    * parent may even be the new inode; then its own dots must not be in the way. */
  function AddInodeAndDentry(db: Db, parent: nat, name: string, kind: Kind): Result<(Db, nat)> {
    var ino := db.lastIno + 1;
    if ino >= 0x1_0000_0000 || (parent !in db.meta && parent != ino) || Slot(parent, name) in db.dentry
       || (parent == ino && kind == Directory && IsDot(name)) then Err(Sql)
    else Ok((Db(db.meta[ino := kind], db.dentry + NewEntries(parent, name, ino, kind), ino), ino))
  }

  /** link_dentry: the inode must exist, be named somewhere and be a regular file. */
  ghost function LinkDentry(db: Db, ino: nat, parent: nat, name: string): Result<Db> {
    if ino !in db.meta then Err(NoEnt)
    else if !Referenced(db, ino) then Err(Sql)
    else if db.meta[ino] != RegularFile then Err(NotRegular)
    else if Slot(parent, name) in db.dentry then Err(Exists)
    else if parent !in db.meta then Err(Sql)
    else Ok(db.(dentry := db.dentry[Slot(parent, name) := Entry(ino, RegularFile)]))
  }

  /** delete_dentry: the entry goes (unless it is a dot) and with it every entry inside its child. */
  function DeleteDentry(db: Db, parent: nat, name: string): Result<(Db, nat)> {
    if Slot(parent, name) !in db.dentry then Err(Sql)
    else
      var child := db.dentry[Slot(parent, name)].child;
      Ok((db.(dentry := map s | s in db.dentry && s.parent != child && (s != Slot(parent, name) || IsDot(name))
                            :: db.dentry[s]), child))
  }

  /** check_directory_is_empty_local */
  ghost predicate IsEmpty(db: Db, d: nat) {
    forall s :: s in db.dentry && s.parent == d ==> IsDot(s.name)
  }

  /** What move_dentry does to the entries. Onto itself, an entry is deleted before the UPDATE could move it. */
  function Moved(db: Db, src: Slot, dst: Slot): Db
    requires src in db.dentry
  {
    if src == dst then db.(dentry := if IsDot(dst.name) then db.dentry else db.dentry - {dst}) else
    var e := db.dentry[src];
    var dentry := (db.dentry - {src, dst})[dst := e];
    var up := Slot(e.child, "..");
    if src.parent != dst.parent && e.kind == Directory && up in dentry then
      db.(dentry := dentry[up := Entry(dst.parent, dentry[up].kind)])
    else db.(dentry := dentry)
  }

  /** move_dentry: the inode that has been overwritten, if there was one. */
  ghost function MoveDentry(db: Db, src: Slot, dst: Slot): Result<(Db, Option<nat>)> {
    if src !in db.dentry then Err(NoEnt)
    else if dst in db.dentry && db.dentry[src].kind != db.dentry[dst].kind then
      match db.dentry[dst].kind
      case Directory => Err(IsDir)
      case RegularFile => Err(IsNotDir)
      case Symlink => Err(OtherType)
    else if dst in db.dentry && db.dentry[dst].kind == Directory && !IsEmpty(db, db.dentry[dst].child) then
      Err(NotEmpty)
    else if src != dst && (dst.parent !in db.meta || (dst in db.dentry && IsDot(dst.name))) then Err(Sql)
    else Ok((Moved(db, src, dst), if dst in db.dentry then Some(db.dentry[dst].child) else None))
  }

  /** Onto itself an entry is not moved but deleted. */
  lemma MoveOntoItself(db: Db, s: Slot)
    requires s in db.dentry && !IsDot(s.name) && (db.dentry[s].kind == Directory ==> IsEmpty(db, db.dentry[s].child))
    ensures MoveDentry(db, s, s) == Ok((db.(dentry := db.dentry - {s}), Some(db.dentry[s].child)))
  {
  }

  /** DELETE FROM metadata WHERE id = i, with the cascade to dentry. */
  function RemoveInode(db: Db, i: nat): Db {
    Db(db.meta - {i}, map s | s in db.dentry && s.parent != i && db.dentry[s].child != i :: db.dentry[s], db.lastIno)
  }

  /** delete_inode_if_noref */
  ghost function DropIfUnreferenced(db: Db, i: nat): Db {
    if Referenced(db, i) then db else RemoveInode(db, i)
  }

  // ---------- Paths to the root ----------

  /** Where the parents of a closed set of directories stay the same, so do the paths to the root. */
  lemma {:induction false} KeepPath(db: Db, db': Db, good: set<nat>, d: nat, k: nat)
    requires d in good && forall y :: y in good ==> Parent(db', y) == Parent(db, y) && Parent(db, y) in good
    requires Ancestor(db, d, k) == ROOT
    ensures Ancestor(db', d, k) == ROOT
    decreases k
  {
    hide Parent;
    if k > 0 {
      KeepPath(db, db', good, Parent(db, d), k - 1);
    }
  }

  lemma KeepReach(db: Db, db': Db, good: set<nat>, d: nat)
    requires d in good && forall y :: y in good ==> Parent(db', y) == Parent(db, y) && Parent(db, y) in good
    requires ReachesRoot(db, d)
    ensures ReachesRoot(db', d)
  {
    hide Parent;
    var k: nat :| Ancestor(db, d, k) == ROOT;
    KeepPath(db, db', good, d, k);
  }

  /** A linked directory has its dots. */
  lemma LinkedHasDots(db: Db, d: nat)
    requires Dots(db) && Naming(db) && LinkedDir(db, d) && Rows(db)
    ensures HasDots(db, d)
  {
    if d != ROOT {
      var s :| Names(db, s, d);
    }
  }

  // ---------- Adding an inode ----------

  /** The effect of add_inode_and_dentry, entry by entry. */
  ghost predicate Added(db: Db, db': Db, parent: nat, name: string, ino: nat, kind: Kind) {
    && ino == db.lastIno + 1 == db'.lastIno && db'.meta == db.meta[ino := kind]
    && Slot(parent, name) !in db.dentry
    && (forall s :: s in db.dentry ==> s in db'.dentry && db'.dentry[s] == db.dentry[s])
    && (forall s :: s in db'.dentry && s !in db.dentry ==>
          s == Slot(parent, name) || (kind == Directory && (s == Slot(ino, ".") || s == Slot(ino, ".."))))
    && Slot(parent, name) in db'.dentry && db'.dentry[Slot(parent, name)] == Entry(ino, kind)
    && (kind == Directory ==>
          && Slot(ino, ".") in db'.dentry && db'.dentry[Slot(ino, ".")] == Entry(ino, kind)
          && Slot(ino, "..") in db'.dentry && db'.dentry[Slot(ino, "..")] == Entry(parent, kind))
  }

  lemma AddIsAdded(db: Db, parent: nat, name: string, kind: Kind)
    requires Rows(db) && AddInodeAndDentry(db, parent, name, kind).Ok? && !IsDot(name) && parent <= db.lastIno
    ensures var (db', ino) := AddInodeAndDentry(db, parent, name, kind).value;
      Added(db, db', parent, name, ino, kind)
    ensures forall s :: s in db.dentry ==> s.parent <= db.lastIno && db.dentry[s].child <= db.lastIno
  {
    assert parent in db.meta;
  }

  ghost predicate FreshIno(db: Db, ino: nat) {
    && ino !in db.meta && ino > ROOT
    && forall s :: s in db.dentry ==> s.parent != ino && db.dentry[s].child != ino
  }

  lemma AddFresh(db: Db)
    requires Rows(db)
    ensures FreshIno(db, db.lastIno + 1)
  {
  }

  lemma AddRows(db: Db, db': Db, parent: nat, name: string, ino: nat, kind: Kind)
    requires Rows(db) && LinkedDir(db, parent) && Added(db, db', parent, name, ino, kind) && !IsDot(name)
    ensures Rows(db')
  {
    AddFresh(db);
  }

  lemma AddLinked(db: Db, db': Db, parent: nat, name: string, ino: nat, kind: Kind)
    requires Rows(db) && Added(db, db', parent, name, ino, kind) && !IsDot(name)
    ensures Linked(db', ino)
    ensures forall i :: i != ino ==> (Linked(db', i) <==> Linked(db, i))
    ensures forall i :: Referenced(db, i) ==> Referenced(db', i)
    ensures Referenced(db', ino)
  {
    assert Names(db', Slot(parent, name), ino);
    assert RefersTo(db', Slot(parent, name), ino);
    forall i | Referenced(db, i)
      ensures Referenced(db', i)
    {
      var s :| RefersTo(db, s, i);
      assert RefersTo(db', s, i);
    }
    forall i | i != ino
      ensures Linked(db', i) <==> Linked(db, i)
    {
      if s :| Names(db, s, i) {
        assert Names(db', s, i);
      }
      if s :| Names(db', s, i) {
        assert Names(db, s, i);
      }
    }
  }

  lemma AddDots(db: Db, db': Db, parent: nat, name: string, ino: nat, kind: Kind)
    requires Rows(db) && Dots(db) && Naming(db) && LinkedDir(db, parent) && !IsDot(name)
    requires Added(db, db', parent, name, ino, kind)
    ensures Dots(db')
  {
    hide Rows, Naming, LinkedDir;
    LinkedHasDots(db, parent);
    forall d | HasDots(db, d)
      ensures HasDots(db', d) && Parent(db', d) == Parent(db, d)
    {
    }
    forall s | s in db'.dentry
      ensures HasDots(db', s.parent)
    {
      if s in db.dentry {
        assert HasDots(db, s.parent);
      }
    }
  }

  lemma AddNaming(db: Db, db': Db, parent: nat, name: string, ino: nat, kind: Kind)
    requires Rows(db) && Dots(db) && Naming(db) && LinkedDir(db, parent) && !IsDot(name)
    requires Added(db, db', parent, name, ino, kind)
    ensures Naming(db')
  {
    AddFresh(db);
    AddNames(db, db', parent, name, ino, kind);
    assert NamesInTree(db') by {
      AddLinked(db, db', parent, name, ino, kind);
    }
    assert NamedOnce(db');
    assert ParentsName(db') by {
      forall s, i | Names(db', s, i) && db'.dentry[s].kind == Directory
        ensures HasDots(db', i) && Parent(db', i) == s.parent
      {
        if i != ino {
          assert Names(db, s, i);
        }
      }
    }
  }

  lemma AddNames(db: Db, db': Db, parent: nat, name: string, ino: nat, kind: Kind)
    requires FreshIno(db, ino) && Added(db, db', parent, name, ino, kind) && !IsDot(name)
    ensures forall s, i :: Names(db', s, i) <==> Names(db, s, i) || (s == Slot(parent, name) && i == ino)
  {
  }

  lemma AddRooted(db: Db, db': Db, parent: nat, name: string, ino: nat, kind: Kind)
    requires Tree(db) && LinkedDir(db, parent) && !IsDot(name)
    requires Added(db, db', parent, name, ino, kind)
    ensures Rooted(db')
  {
    AddLinked(db, db', parent, name, ino, kind);
    AddParents(db, db', parent, name, ino, kind);
    assert db'.meta == db.meta[ino := kind];
    hide Added, Rows, Dots, Naming, Linked, Parent, ReachesRoot;
    forall d | LinkedDir(db', d)
      ensures ReachesRoot(db', d)
    {
      if d != ino {
        assert LinkedDir(db, d);
        KeepReach(db, db', db.meta.Keys, d);
      } else {
        KeepReach(db, db', db.meta.Keys, parent);
        OneUp(db', ino);
      }
    }
  }

  lemma AddParents(db: Db, db': Db, parent: nat, name: string, ino: nat, kind: Kind)
    requires Rows(db) && Added(db, db', parent, name, ino, kind) && !IsDot(name)
    ensures forall y :: y in db.meta ==> Parent(db', y) == Parent(db, y) && Parent(db, y) in db.meta
    ensures kind == Directory ==> Parent(db', ino) == parent
  {
    AddFresh(db);
  }

  lemma OneUp(db: Db, d: nat)
    requires ReachesRoot(db, Parent(db, d))
    ensures ReachesRoot(db, d)
  {
    var k: nat :| Ancestor(db, Parent(db, d), k) == ROOT;
    assert Ancestor(db, d, k + 1) == ROOT;
  }

  /** mkdir, create and symlink keep the tree. */
  lemma AddKeepsTree(db: Db, parent: nat, name: string, kind: Kind)
    requires Tree(db) && LinkedDir(db, parent) && !IsDot(name)
    requires AddInodeAndDentry(db, parent, name, kind).Ok?
    ensures var (db', ino) := AddInodeAndDentry(db, parent, name, kind).value;
      && Tree(db')
      && ino == db.lastIno + 1 == db'.lastIno && ino !in db.meta && db'.meta == db.meta[ino := kind]
      && Referenced(db', ino) && forall i :: Referenced(db, i) ==> Referenced(db', i)
  {
    hide Added, AddInodeAndDentry, Referenced;
    var (db', ino) := AddInodeAndDentry(db, parent, name, kind).value;
    assert ino == db.lastIno + 1 == db'.lastIno && db'.meta == db.meta[ino := kind] by {
      AddMeta(db, parent, name, kind);
    }
    AddFresh(db);
    AddLinkedHere(db, parent, name, kind);
    AddIsAdded(db, parent, name, kind);
    AddRows(db, db', parent, name, ino, kind);
    AddDots(db, db', parent, name, ino, kind);
    AddNaming(db, db', parent, name, ino, kind);
    AddRooted(db, db', parent, name, ino, kind);
  }

  lemma AddMeta(db: Db, parent: nat, name: string, kind: Kind)
    requires AddInodeAndDentry(db, parent, name, kind).Ok?
    ensures var (db', ino) := AddInodeAndDentry(db, parent, name, kind).value;
      ino == db.lastIno + 1 == db'.lastIno && db'.meta == db.meta[ino := kind]
  {
  }

  lemma AddLinkedHere(db: Db, parent: nat, name: string, kind: Kind)
    requires Rows(db) && AddInodeAndDentry(db, parent, name, kind).Ok? && !IsDot(name) && parent <= db.lastIno
    ensures var (db', ino) := AddInodeAndDentry(db, parent, name, kind).value;
      Referenced(db', ino) && forall i :: Referenced(db, i) ==> Referenced(db', i)
  {
    hide AddInodeAndDentry, Rows, Referenced, Added, Linked;
    var (db', ino) := AddInodeAndDentry(db, parent, name, kind).value;
    AddIsAdded(db, parent, name, kind);
    AddLinked(db, db', parent, name, ino, kind);
  }

  // ---------- Linking a file ----------

  ghost predicate NewLink(db: Db, db': Db, ino: nat, new_: Slot) {
    && ino in db.meta && db.meta[ino] == RegularFile && new_ !in db.dentry && !IsDot(new_.name)
    && db' == db.(dentry := db.dentry[new_ := Entry(ino, RegularFile)])
  }

  lemma LinkRows(db: Db, db': Db, ino: nat, new_: Slot)
    requires Rows(db) && NewLink(db, db', ino, new_) && LinkedDir(db, new_.parent)
    ensures Rows(db')
    ensures forall y :: y in db.meta ==> Parent(db, y) in db.meta
  {
  }

  lemma LinkNames(db: Db, db': Db, ino: nat, new_: Slot)
    requires NewLink(db, db', ino, new_)
    ensures forall s, i :: Names(db', s, i) <==> Names(db, s, i) || (s == new_ && i == ino)
    ensures forall i :: Linked(db', i) <==> Linked(db, i) || i == ino
    ensures forall y :: Parent(db', y) == Parent(db, y)
    ensures forall d :: HasDots(db, d) ==> HasDots(db', d)
  {
    assert Names(db', new_, ino);
    forall i
      ensures Linked(db', i) <==> Linked(db, i) || i == ino
    {
      if s :| Names(db, s, i) {
        assert Names(db', s, i);
      }
      if s :| Names(db', s, i) && s != new_ {
        assert Names(db, s, i);
      }
    }
  }

  lemma LinkDots(db: Db, db': Db, ino: nat, new_: Slot)
    requires Rows(db) && Dots(db) && Naming(db) && NewLink(db, db', ino, new_) && LinkedDir(db, new_.parent)
    ensures Dots(db')
  {
    LinkNames(db, db', ino, new_);
    LinkedHasDots(db, new_.parent);
    hide Rows, Naming, LinkedDir, HasDots, Parent;
    forall s | s in db'.dentry
      ensures HasDots(db', s.parent)
    {
      assert s in db.dentry || s == new_;
    }
  }

  lemma LinkNaming(db: Db, db': Db, ino: nat, new_: Slot)
    requires Rows(db) && Naming(db) && NewLink(db, db', ino, new_) && LinkedDir(db, new_.parent)
    ensures Naming(db')
  {
    LinkNames(db, db', ino, new_);
    hide Linked, HasDots, Parent;
    assert NamesInTree(db');
    forall s, i | Names(db', s, i) && db'.dentry[s].kind == Directory
      ensures Names(db, s, i) && db.dentry[s].kind == Directory
    {
    }
    assert ParentsName(db') && NamedOnce(db') by {
      hide NamesInTree, Rows, NewLink;
    }
  }

  lemma LinkRooted(db: Db, db': Db, ino: nat, new_: Slot)
    requires Rows(db) && Rooted(db) && NewLink(db, db', ino, new_) && LinkedDir(db, new_.parent)
    ensures Rooted(db')
  {
    LinkRows(db, db', ino, new_);
    LinkNames(db, db', ino, new_);
    hide Rows, Linked, Parent, ReachesRoot;
    forall d | LinkedDir(db', d)
      ensures ReachesRoot(db', d)
    {
      assert LinkedDir(db, d);
      KeepReach(db, db', db.meta.Keys, d);
    }
  }

  lemma LinkReferences(db: Db, db': Db, ino: nat, new_: Slot)
    requires NewLink(db, db', ino, new_)
    ensures forall i :: Referenced(db, i) ==> Referenced(db', i)
  {
    forall i | Referenced(db, i)
      ensures Referenced(db', i)
    {
      var s :| RefersTo(db, s, i);
      assert RefersTo(db', s, i);
    }
  }

  /** link keeps the tree and every reference. */
  lemma LinkKeepsTree(db: Db, ino: nat, parent: nat, name: string)
    requires Tree(db) && LinkedDir(db, parent) && !IsDot(name) && LinkDentry(db, ino, parent, name).Ok?
    ensures Tree(LinkDentry(db, ino, parent, name).value)
    ensures ino in db.meta
    ensures var db' := LinkDentry(db, ino, parent, name).value; db'.meta == db.meta && db'.lastIno == db.lastIno
    ensures forall i :: Referenced(db, i) ==> Referenced(LinkDentry(db, ino, parent, name).value, i)
  {
    var db', new_ := LinkDentry(db, ino, parent, name).value, Slot(parent, name);
    assert NewLink(db, db', ino, new_);
    hide LinkDentry, NewLink, Rows, Dots, Naming, Rooted, LinkedDir, Referenced;
    LinkRows(db, db', ino, new_);
    LinkDots(db, db', ino, new_);
    LinkNaming(db, db', ino, new_);
    LinkRooted(db, db', ino, new_);
    LinkReferences(db, db', ino, new_);
  }

  // ---------- Deleting an entry ----------

  /** The effect of delete_dentry on an entry `src` whose child `c` has no named entries. */
  ghost predicate Deleted(db: Db, db': Db, src: Slot, c: nat) {
    && src in db.dentry && db.dentry[src].child == c && !IsDot(src.name) && IsEmpty(db, c)
    && db'.meta == db.meta && db'.lastIno == db.lastIno
    && (forall s :: s in db'.dentry <==> s in db.dentry && s != src && s.parent != c)
    && (forall s :: s in db'.dentry ==> db'.dentry[s] == db.dentry[s])
  }

  lemma DeleteFacts(db: Db, db': Db, src: Slot, c: nat)
    requires Rows(db) && Naming(db) && Deleted(db, db', src, c)
    ensures c != ROOT && src.parent != c
    ensures forall s, i :: Names(db', s, i) <==> Names(db, s, i) && s != src
    ensures forall i :: i != c ==> (Linked(db', i) <==> Linked(db, i))
    ensures c in db.meta && db.meta[c] == Directory ==> !Linked(db', c)
    ensures forall y :: y != c ==> Parent(db', y) == Parent(db, y)
    ensures forall d :: d != c && HasDots(db, d) ==> HasDots(db', d)
  {
    assert Names(db, src, c);
    forall s, i | Names(db, s, i)
      ensures s.parent != c
    {
    }
    forall i | i != c
      ensures Linked(db', i) <==> Linked(db, i)
    {
      if s :| Names(db, s, i) {
        assert Names(db', s, i);
      }
      if s :| Names(db', s, i) {
        assert Names(db, s, i);
      }
    }
    if c in db.meta && db.meta[c] == Directory {
      forall s | Names(db', s, c)
        ensures false
      {
        assert Names(db, s, c);
      }
    }
  }

  lemma DeleteDots(db: Db, db': Db, src: Slot, c: nat)
    requires Rows(db) && Dots(db) && Naming(db) && Deleted(db, db', src, c)
    ensures Dots(db')
  {
    DeleteFacts(db, db', src, c);
    hide Rows, Naming, HasDots, Parent;
    forall s | s in db'.dentry
      ensures HasDots(db', s.parent)
    {
      assert HasDots(db, s.parent);
    }
  }

  lemma DeleteNaming(db: Db, db': Db, src: Slot, c: nat)
    requires Rows(db) && Naming(db) && Deleted(db, db', src, c)
    ensures Naming(db')
  {
    DeleteFacts(db, db', src, c);
    hide Linked, HasDots, Parent, IsEmpty;
    assert Names(db, src, c);
    forall s, i | Names(db', s, i)
      ensures i != ROOT && Linked(db', s.parent)
      ensures db'.dentry[s].kind == Directory ==> HasDots(db', i) && Parent(db', i) == s.parent
    {
      assert Names(db, s, i);
      assert s in db'.dentry && s.parent != c;
    }
  }

  lemma DeleteRooted(db: Db, db': Db, src: Slot, c: nat)
    requires Tree(db) && Deleted(db, db', src, c)
    ensures Rooted(db')
  {
    DeleteFacts(db, db', src, c);
    var good := set d | d in db.meta && LinkedDir(db, d) && d != c;
    forall y | y in good
      ensures Parent(db', y) == Parent(db, y) && Parent(db, y) in good
    {
      if y != ROOT {
        var s :| Names(db, s, y);
        assert Parent(db, y) == s.parent;
      }
    }
    hide Rows, Dots, Naming, Linked, Parent, ReachesRoot;
    forall d | LinkedDir(db', d)
      ensures ReachesRoot(db', d)
    {
      assert d in good;
      KeepReach(db, db', good, d);
    }
  }

  lemma DeleteReferences(db: Db, db': Db, src: Slot, c: nat)
    requires Tree(db) && Deleted(db, db', src, c)
    ensures forall i :: i != c && Referenced(db, i) ==> Referenced(db', i)
  {
    DeleteFacts(db, db', src, c);
    assert HasDots(db, src.parent);
    forall i | i != c && Referenced(db, i)
      ensures Referenced(db', i)
    {
      var s :| RefersTo(db, s, i);
      if s.parent == c {
        assert HasDots(db, c);
        assert s == Slot(c, "..");
        assert Names(db, src, c);
        assert i == src.parent;
        assert RefersTo(db', Slot(src.parent, "."), i);
      } else {
        assert RefersTo(db', s, i);
      }
    }
  }

  lemma DeleteIsDeleted(db: Db, parent: nat, name: string)
    requires DeleteDentry(db, parent, name).Ok? && !IsDot(name)
    requires IsEmpty(db, DeleteDentry(db, parent, name).value.1)
    ensures var (db', c) := DeleteDentry(db, parent, name).value;
      Deleted(db, db', Slot(parent, name), c)
  {
  }

  /** unlink and rmdir keep the tree, and take the last reference from nothing but the child. */
  lemma DeleteKeepsTree(db: Db, parent: nat, name: string)
    requires Tree(db) && !IsDot(name) && DeleteDentry(db, parent, name).Ok?
    requires IsEmpty(db, DeleteDentry(db, parent, name).value.1)
    ensures var (db', c) := DeleteDentry(db, parent, name).value;
      && Tree(db') && c != ROOT
      && db'.meta == db.meta && db'.lastIno == db.lastIno
      && forall i :: i != c && Referenced(db, i) ==> Referenced(db', i)
  {
    hide DeleteDentry, Deleted, Dots, Naming, IsEmpty, Rooted;
    var (db', c) := DeleteDentry(db, parent, name).value;
    var src := Slot(parent, name);
    DeleteIsDeleted(db, parent, name);
    assert db'.meta == db.meta && db'.lastIno == db.lastIno by {
      DeletedMeta(db, db', src, c);
    }
    DeleteFacts(db, db', src, c);
    DeleteDots(db, db', src, c);
    DeleteNaming(db, db', src, c);
    DeleteRooted(db, db', src, c);
    DeleteReferences(db, db', src, c);
    DeleteRows(db, db', src, c);
  }

  lemma DeletedMeta(db: Db, db': Db, src: Slot, c: nat)
    requires Deleted(db, db', src, c)
    ensures db'.meta == db.meta && db'.lastIno == db.lastIno
  {
  }

  lemma DeleteRows(db: Db, db': Db, src: Slot, c: nat)
    requires Rows(db) && Deleted(db, db', src, c)
    ensures Rows(db')
  {
  }

  // ---------- Moving an entry ----------

  /** The effect of move_dentry from `src` to `dst`, which may overwrite the entry of another inode. */
  ghost predicate MovedTo(db: Db, db': Db, src: Slot, dst: Slot) {
    && src in db.dentry && src != dst && !IsDot(src.name) && !IsDot(dst.name)
    && db'.meta == db.meta && db'.lastIno == db.lastIno
    && (forall s :: s in db'.dentry <==> (s in db.dentry && s != src) || s == dst)
    && db'.dentry[dst] == db.dentry[src]
    && (forall s :: s in db.dentry && s != src && s != dst ==>
          (db.dentry[src].kind == Directory && s == Slot(db.dentry[src].child, ".."))
          || db'.dentry[s] == db.dentry[s])
    && (db.dentry[src].kind == Directory && Slot(db.dentry[src].child, "..") in db.dentry ==>
          db'.dentry[Slot(db.dentry[src].child, "..")] == Entry(dst.parent, Directory))
  }

  /** What the kernel has made sure of, and the checks of move_dentry itself. */
  ghost predicate CanMove(db: Db, src: Slot, dst: Slot) {
    && src in db.dentry && !IsDot(src.name) && !IsDot(dst.name)
    && LinkedDir(db, dst.parent)
    && (dst in db.dentry ==>
          && db.dentry[dst].child != db.dentry[src].child
          && db.dentry[dst].kind == db.dentry[src].kind
          && IsEmpty(db, db.dentry[dst].child))
    && (db.dentry[src].kind == Directory ==> !Below(db, dst.parent, db.dentry[src].child))
  }

  lemma MoveIsMoved(db: Db, src: Slot, dst: Slot)
    requires Rows(db) && Naming(db) && CanMove(db, src, dst)
    ensures MovedTo(db, Moved(db, src, dst), src, dst)
  {
    var e := db.dentry[src];
    var up := Slot(e.child, "..");
    assert Names(db, src, e.child);
    if e.kind == Directory {
      assert HasDots(db, e.child) && Parent(db, e.child) == src.parent;
      assert db.dentry[up].kind == Directory;
    }
  }

  /** The names after the move: the moved inode's, and all others but the overwritten one. */
  lemma MoveNames(db: Db, db': Db, src: Slot, dst: Slot)
    requires Rows(db) && Naming(db) && CanMove(db, src, dst) && MovedTo(db, db', src, dst)
    ensures var m := db.dentry[src].child;
      && m != ROOT
      && (forall s, i :: Names(db', s, i) <==> (s == dst && i == m) || (s != src && s != dst && Names(db, s, i)))
      && (forall y ::
            Parent(db', y) == if y == m && db.dentry[src].kind == Directory then dst.parent else Parent(db, y))
      && (forall d :: HasDots(db, d) ==> HasDots(db', d))
  {
    var m := db.dentry[src].child;
    assert Names(db, src, m);
    forall y
      ensures Parent(db', y) == if y == m && db.dentry[src].kind == Directory then dst.parent else Parent(db, y)
    {
      var up := Slot(y, "..");
      assert up != src && up != dst;
    }
    forall d | HasDots(db, d)
      ensures HasDots(db', d)
    {
      assert Slot(d, ".") in db'.dentry && Slot(d, "..") in db'.dentry;
    }
  }

  /** Nothing but an overwritten inode can lose its last name. */
  lemma MoveLinked(db: Db, db': Db, src: Slot, dst: Slot)
    requires Rows(db) && Naming(db) && CanMove(db, src, dst) && MovedTo(db, db', src, dst)
    ensures forall i :: Linked(db', i) ==> Linked(db, i)
    ensures forall i :: Linked(db, i) && !(dst in db.dentry && i == db.dentry[dst].child) ==> Linked(db', i)
  {
    MoveNames(db, db', src, dst);
    var m := db.dentry[src].child;
    assert Names(db, src, m) && Names(db', dst, m);
    hide Rows, Naming, MovedTo, CanMove, Parent, HasDots;
    forall i | Linked(db', i)
      ensures Linked(db, i)
    {
      if i != ROOT {
        var s :| Names(db', s, i);
        assert Names(db, src, i) || Names(db, s, i);
      }
    }
    forall i | Linked(db, i) && !(dst in db.dentry && i == db.dentry[dst].child)
      ensures Linked(db', i)
    {
      if i != ROOT {
        var s :| Names(db, s, i);
        assert Names(db', if s == src then dst else s, i);
      }
    }
  }

  /** A linked directory is not its own parent unless it is the root. */
  lemma NotOwnParent(db: Db, d: nat)
    requires Tree(db) && LinkedDir(db, d) && d != ROOT
    ensures Parent(db, d) != d
  {
    if Parent(db, d) == d {
      var k: nat :| Ancestor(db, d, k) == ROOT;
      Stuck(db, d, k);
    }
  }

  lemma {:induction false} Stuck(db: Db, d: nat, k: nat)
    requires Parent(db, d) == d
    ensures Ancestor(db, d, k) == d
    decreases k
  {
    if k > 0 {
      Stuck(db, d, k - 1);
    }
  }

  /** The directory an entry stands in after the move is not the overwritten one. */
  lemma MoveAvoidsOverwritten(db: Db, db': Db, src: Slot, dst: Slot, s: Slot, i: nat)
    requires Tree(db) && CanMove(db, src, dst) && MovedTo(db, db', src, dst)
    requires dst in db.dentry && Names(db', s, i)
    ensures s.parent != db.dentry[dst].child
  {
    MoveNames(db, db', src, dst);
    var o := db.dentry[dst].child;
    assert Names(db, dst, o);
    if s != dst {
      assert Names(db, s, i);
    } else if db.meta[o] == Directory {
      NotOwnParent(db, o);
    }
  }

  lemma MoveNaming(db: Db, db': Db, src: Slot, dst: Slot)
    requires Tree(db) && CanMove(db, src, dst) && MovedTo(db, db', src, dst)
    ensures Naming(db')
  {
    MoveNames(db, db', src, dst);
    var m := db.dentry[src].child;
    assert Names(db, src, m);
    forall s, i | Names(db', s, i)
      ensures i != ROOT && Linked(db', s.parent)
    {
      MoveLinked(db, db', src, dst);
      if dst in db.dentry {
        MoveAvoidsOverwritten(db, db', src, dst, s, i);
      }
      assert Names(db, if s == dst then src else s, i);
    }
    assert ParentsName(db') && NamedOnce(db') by {
      MoveParentsName(db, db', src, dst);
    }
  }

  lemma MoveParentsName(db: Db, db': Db, src: Slot, dst: Slot)
    requires Rows(db) && Naming(db) && CanMove(db, src, dst) && MovedTo(db, db', src, dst)
    ensures ParentsName(db') && NamedOnce(db')
  {
    MoveNames(db, db', src, dst);
    var m := db.dentry[src].child;
    assert Names(db, src, m);
    hide Linked, HasDots, Parent, Rows, CanMove;
    forall s, i | Names(db', s, i) && db'.dentry[s].kind == Directory
      ensures HasDots(db', i) && Parent(db', i) == s.parent
    {
      var was := if s == dst then src else s;
      assert Names(db, was, i) && db.dentry[was].kind == Directory;
    }
    forall s, s', i | Names(db', s, i) && Names(db', s', i) && db'.dentry[s].kind == Directory
      ensures s == s'
    {
      var was, was' := if s == dst then src else s, if s' == dst then src else s';
      assert Names(db, was, i) && Names(db, was', i) && db.dentry[was].kind == Directory;
    }
  }

  lemma MoveRows(db: Db, db': Db, src: Slot, dst: Slot)
    requires Rows(db) && CanMove(db, src, dst) && MovedTo(db, db', src, dst)
    ensures Rows(db')
  {
  }

  lemma MoveDots(db: Db, db': Db, src: Slot, dst: Slot)
    requires Rows(db) && Dots(db) && Naming(db) && CanMove(db, src, dst) && MovedTo(db, db', src, dst)
    ensures Dots(db')
  {
    MoveNames(db, db', src, dst);
    LinkedHasDots(db, dst.parent);
    hide Rows, Naming, HasDots, Parent, CanMove;
    forall s | s in db'.dentry
      ensures HasDots(db', s.parent)
    {
      assert s == dst || HasDots(db, s.parent);
    }
  }

  /** A path that does not meet the moved directory stays as it is. */
  lemma {:induction false} PathBeside(db: Db, db': Db, m: nat, d: nat, k: nat)
    requires forall y :: y != m ==> Parent(db', y) == Parent(db, y)
    requires Ancestor(db, d, k) == ROOT && !Below(db, d, m)
    ensures Ancestor(db', d, k) == ROOT
    decreases k
  {
    hide Parent;
    assert d != m by {
      assert Ancestor(db, d, 0) == d;
    }
    if k > 0 {
      forall j: nat
        ensures Ancestor(db, Parent(db, d), j) != m
      {
        assert Ancestor(db, d, j + 1) == Ancestor(db, Parent(db, d), j);
      }
      PathBeside(db, db', m, Parent(db, d), k - 1);
    }
  }

  /** A path that meets it goes on from its new parent. */
  lemma {:induction false} PathThrough(db: Db, db': Db, m: nat, q: nat, d: nat, k: nat)
    requires forall y :: Parent(db', y) == if y == m then q else Parent(db, y)
    requires ReachesRoot(db, q) && !Below(db, q, m)
    requires Ancestor(db, d, k) == ROOT
    ensures ReachesRoot(db', d)
    decreases k
  {
    hide Parent, Below;
    if d == m {
      var j: nat :| Ancestor(db, q, j) == ROOT;
      PathBeside(db, db', m, q, j);
      OneUp(db', d);
    } else if k == 0 {
      assert Ancestor(db', d, 0) == ROOT;
    } else {
      PathThrough(db, db', m, q, Parent(db, d), k - 1);
      OneUp(db', d);
    }
  }

  lemma MoveRooted(db: Db, db': Db, src: Slot, dst: Slot)
    requires Tree(db) && CanMove(db, src, dst) && MovedTo(db, db', src, dst)
    ensures Rooted(db')
  {
    MoveNames(db, db', src, dst);
    MoveLinked(db, db', src, dst);
    var m := db.dentry[src].child;
    var isDir := db.dentry[src].kind == Directory;
    assert db'.meta == db.meta && LinkedDir(db, dst.parent);
    assert isDir ==> !Below(db, dst.parent, m);
    hide Rows, Dots, Naming, Linked, Parent, MovedTo, CanMove, Below;
    forall d | LinkedDir(db', d)
      ensures ReachesRoot(db', d)
    {
      assert LinkedDir(db, d);
      var k: nat :| Ancestor(db, d, k) == ROOT;
      if isDir {
        PathThrough(db, db', m, dst.parent, d, k);
      } else {
        SamePath(db, db', d, k);
      }
    }
  }

  lemma {:induction false} SamePath(db: Db, db': Db, d: nat, k: nat)
    requires forall y :: Parent(db', y) == Parent(db, y)
    ensures Ancestor(db', d, k) == Ancestor(db, d, k)
    decreases k
  {
    hide Parent;
    if k > 0 {
      SamePath(db, db', Parent(db, d), k - 1);
    }
  }

  lemma MoveReferences(db: Db, db': Db, src: Slot, dst: Slot)
    requires Tree(db) && CanMove(db, src, dst) && MovedTo(db, db', src, dst)
    ensures forall i :: Referenced(db, i) && !(dst in db.dentry && i == db.dentry[dst].child) ==> Referenced(db', i)
  {
    var m := db.dentry[src].child;
    assert Names(db, src, m);
    assert HasDots(db, src.parent);
    forall i | Referenced(db, i) && !(dst in db.dentry && i == db.dentry[dst].child)
      ensures Referenced(db', i)
    {
      var s :| RefersTo(db, s, i);
      if s == src {
        assert RefersTo(db', dst, i);
      } else if s == Slot(m, "..") && db.dentry[src].kind == Directory {
        assert Parent(db, m) == src.parent == i;
        assert RefersTo(db', Slot(i, "."), i);
      } else {
        assert RefersTo(db', s, i);
      }
    }
  }

  lemma MovedMeta(db: Db, src: Slot, dst: Slot)
    requires src in db.dentry
    ensures Moved(db, src, dst).meta == db.meta && Moved(db, src, dst).lastIno == db.lastIno
  {
  }

  /** rename keeps the tree, and takes the last reference from nothing but the overwritten inode. */
  lemma MoveKeepsTree(db: Db, src: Slot, dst: Slot)
    requires Tree(db) && src in db.dentry && CanMove(db, src, dst)
    ensures Tree(Moved(db, src, dst))
    ensures Moved(db, src, dst).meta == db.meta && Moved(db, src, dst).lastIno == db.lastIno
    ensures forall i :: Referenced(db, i) && !(dst in db.dentry && i == db.dentry[dst].child) ==>
              Referenced(Moved(db, src, dst), i)
  {
    hide Moved, MovedTo, CanMove, Rows, Dots, Naming, Rooted;
    var db' := Moved(db, src, dst);
    MovedMeta(db, src, dst);
    MoveIsMoved(db, src, dst);
    MoveRows(db, db', src, dst);
    MoveDots(db, db', src, dst);
    MoveNaming(db, db', src, dst);
    MoveRooted(db, db', src, dst);
    MoveReferences(db, db', src, dst);
  }

  // ---------- Dropping an inode ----------

  /** No entry stands in an inode that no entry refers to, so the cascade has nothing to take. */
  lemma UnreferencedHasNoEntries(db: Db, i: nat)
    requires Dots(db) && !Referenced(db, i)
    ensures RemoveInode(db, i) == db.(meta := db.meta - {i})
  {
    forall s | s in db.dentry
      ensures s.parent != i && db.dentry[s].child != i
    {
      assert RefersTo(db, s, db.dentry[s].child);
      assert HasDots(db, s.parent);
      assert RefersTo(db, Slot(s.parent, "."), s.parent);
    }
  }

  /** delete_inode_if_noref removes the row exactly when nothing refers to it, and touches no entry. */
  lemma DropKeepsTree(db: Db, i: nat)
    requires Tree(db)
    ensures var db' := DropIfUnreferenced(db, i);
      && Tree(db') && db'.dentry == db.dentry && db'.lastIno == db.lastIno
      && db'.meta == (if Referenced(db, i) then db.meta else db.meta - {i})
      && forall j :: Referenced(db', j) <==> Referenced(db, j)
  {
    var db' := DropIfUnreferenced(db, i);
    if !Referenced(db, i) {
      UnreferencedHasNoEntries(db, i);
      assert RefersTo(db, Slot(ROOT, "."), ROOT);
      SameEntries(db, db');
      DropRooted(db, db');
      forall s | s in db.dentry
        ensures s.parent != i && db.dentry[s].child != i
      {
        assert RefersTo(db, s, db.dentry[s].child);
        assert RefersTo(db, Slot(s.parent, "."), s.parent);
      }
    }
  }

  lemma SameEntries(db: Db, db': Db)
    requires db'.dentry == db.dentry
    ensures forall s, i :: Names(db', s, i) <==> Names(db, s, i)
    ensures forall j :: (Referenced(db', j) <==> Referenced(db, j)) && (Linked(db', j) <==> Linked(db, j))
    ensures forall y :: Parent(db', y) == Parent(db, y)
    ensures Dots(db) ==> Dots(db')
    ensures Naming(db) ==> Naming(db')
  {
    forall s, i
      ensures (RefersTo(db', s, i) <==> RefersTo(db, s, i)) && (Names(db', s, i) <==> Names(db, s, i))
    {
    }
    assert forall d :: HasDots(db', d) <==> HasDots(db, d);
  }

  lemma DropRooted(db: Db, db': Db)
    requires Rooted(db) && db'.dentry == db.dentry
    requires forall j :: j in db'.meta ==> j in db.meta && db.meta[j] == db'.meta[j]
    ensures Rooted(db')
  {
    SameEntries(db, db');
    hide Linked, Parent, Dots, Naming;
    forall d | LinkedDir(db', d)
      ensures ReachesRoot(db', d)
    {
      assert LinkedDir(db, d);
      var k: nat :| Ancestor(db, d, k) == ROOT;
      SamePath(db, db', d, k);
    }
  }
}
