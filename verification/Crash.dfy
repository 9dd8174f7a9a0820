/** A request cut off between its transactions, and the mount that follows (src/filesystem.rs:210-218, 534-738;
  * src/db_module/sqlite.rs:961-975, 1050-1145, 1328-1334). */
module Crash {
  import opened Namespace
  import opened Lifetime
  import Session

  /** The tables after the first transaction of a request. unlink, rmdir and rename have a second one that drops the
    * inode, symlink one that writes the text; the other requests have only one that changes anything. */
  ghost function Between(fs: Fs, r: Request): Db
    requires Sendable(fs, r)
  {
    match r
    case Unlink(parent, name) => Deleting(fs.db, parent, name)
    case Rmdir(parent, name) =>
      if Slot(parent, name) in fs.db.dentry && IsEmpty(fs.db, fs.db.dentry[Slot(parent, name)].child) then
        Deleting(fs.db, parent, name)
      else fs.db
    case Rename(parent, name, newParent, newName) =>
      var moved := MoveDentry(fs.db, Slot(parent, name), Slot(newParent, newName));
      if moved.Ok? then moved.value.0 else fs.db
    case _ => Step(fs, r).0.db
  }

  function Deleting(db: Db, parent: nat, name: string): Db {
    match DeleteDentry(db, parent, name)
    case Ok((db', _)) => db'
    case Err(_) => db
  }

  lemma DropAllAfterDrop(db: Db, i: nat)
    requires Tree(db)
    ensures DropAll(DropIfUnreferenced(db, i)) == DropAll(db) && DropIfUnreferenced(db, i).dentry == db.dentry
  {
    hide Tree, Referenced, DropIfUnreferenced;
    DropKeepsTree(db, i);
  }

  lemma DeletingCut(fs: Fs, parent: nat, name: string)
    requires Tree(fs.db) && !IsDot(name)
    requires Slot(parent, name) in fs.db.dentry ==> IsEmpty(fs.db, fs.db.dentry[Slot(parent, name)].child)
    ensures var db := Deleting(fs.db, parent, name);
      && Tree(db) && DropAll(db) == DropAll(DoUnlink(fs, parent, name).0.db) && Numbers(fs.db, db)
      && db.meta == fs.db.meta && db.dentry == DoUnlink(fs, parent, name).0.db.dentry
  {
    hide Tree, IsEmpty, DropAll, DropIfUnreferenced;
    if Slot(parent, name) in fs.db.dentry {
      DeleteKeepsTree(fs.db, parent, name);
      DropAllAfterDrop(Deleting(fs.db, parent, name), fs.db.dentry[Slot(parent, name)].child);
    }
  }

  lemma MovingCut(fs: Fs, src: Slot, dst: Slot)
    requires Inv(fs) && Sendable(fs, Rename(src.parent, src.name, dst.parent, dst.name))
    requires MoveDentry(fs.db, src, dst).Ok?
    ensures var db := MoveDentry(fs.db, src, dst).value.0;
      && Tree(db) && DropAll(db) == DropAll(DoRename(fs, src, dst).0.db) && Numbers(fs.db, db)
      && db.meta == fs.db.meta && db.dentry == DoRename(fs, src, dst).0.db.dentry
  {
    hide Tree, Rows, MoveDentry, CanMove, Moved, Usable, Below, DropAll, DropIfUnreferenced;
    TreeRows(fs.db);
    MoveAllowed(fs, src, dst);
    MoveKeepsTree(fs.db, src, dst);
    if dst in fs.db.dentry {
      DropAllAfterDrop(Moved(fs.db, src, dst), fs.db.dentry[dst].child);
    }
  }

  /** At the cut the entries are changed and no inode is dropped. Mounting then gives what mounting after the whole
    * request gives: on names every request is atomic. */
  lemma CutIsWhole(fs: Fs, r: Request)
    requires Inv(fs) && Sendable(fs, r)
    ensures var db := Between(fs, r);
      && Tree(db) && Numbers(fs.db, db)
      && DropAll(db) == DropAll(Step(fs, r).0.db) && Inv(Fs(DropAll(db), map[]))
    ensures r.Unlink? || r.Rmdir? || r.Rename? ==> Between(fs, r).meta == fs.db.meta
    ensures Between(fs, r).dentry == Step(fs, r).0.db.dentry
  {
    hide Tree, HeldPresent, NoOrphans, DropAll, DeleteDentry, MoveDentry, DropIfUnreferenced, Usable, Below,
         IsEmpty, Numbers, DoMkdir, DoCreate, DoSymlink, DoLink;
    StepKeepsInv(fs, r);
    match r {
      case Unlink(parent, name) =>
        if Slot(parent, name) in fs.db.dentry {
          TreeRows(fs.db);
          FilesAreEmpty(fs.db, Slot(parent, name));
        }
        DeletingCut(fs, parent, name);
      case Rmdir(parent, name) =>
        if Slot(parent, name) in fs.db.dentry && IsEmpty(fs.db, fs.db.dentry[Slot(parent, name)].child) {
          DeletingCut(fs, parent, name);
        } else {
          SameNumbers(fs.db);
        }
      case Rename(parent, name, newParent, newName) =>
        var src, dst := Slot(parent, name), Slot(newParent, newName);
        if MoveDentry(fs.db, src, dst).Ok? {
          MovingCut(fs, src, dst);
        } else {
          SameNumbers(fs.db);
        }
      case _ =>
    }
    MountEstablishesInv(Between(fs, r));
  }

  lemma SameNumbers(db: Db)
    ensures Numbers(db, db)
  {
  }

  /** What the next mount makes of a state: nobody holds anything, inodes without references go with their content. */
  ghost function Mounted(s: Session.State): Session.State {
    var db := DropAll(s.fs.db);
    Session.State(Fs(db, map[]), Session.Carried(s.files, db.meta, []))
  }

  /** Names and content at the cut; the text of a symbolic link is not written yet. */
  ghost function CutOff(s: Session.State, q: Request): Session.State
    requires Sendable(s.fs, q)
  {
    var db := Between(s.fs, q);
    Session.State(Fs(db, s.fs.held), Session.Carried(s.files, db.meta, []))
  }

  /** After the mount, names and content are those after the whole request, except that a new symbolic link may have
    * come out empty; no other inode has lost or changed its content. */
  lemma CutContentIsWhole(s: Session.State, q: Request)
    requires Session.Inv(s) && Session.Sendable(s, Session.Names(q))
    ensures var cut, whole := Mounted(CutOff(s, q)), Mounted(Session.FlatStep(s, Session.Names(q)).0);
      && Session.Inv(cut) && cut.fs == whole.fs
      && (forall i :: i in cut.files && i in s.files ==> cut.files[i] == whole.files[i] == s.files[i])
      && (forall i :: i in cut.files && i !in s.files ==>
            cut.files[i] == [] && whole.files[i] == Session.FirstContent(q))
  {
    hide Inv, Tree, DropAll, Step, Between, Sendable;
    CutIsWhole(s.fs, q);
    StepKeepsInv(s.fs, q);
    Survivors(Between(s.fs, q));
    Survivors(Step(s.fs, q).0.db);
  }

  lemma Survivors(db: Db)
    ensures DropAll(db).meta.Keys <= db.meta.Keys
  {
  }
}
