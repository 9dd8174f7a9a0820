/** What every request on names answers, seen from the tables before it, and how the answers add up to the lookup
  * counts (src/filesystem.rs:234-300, 464-781, 1277-1362; src/db_module/sqlite.rs:863-896, 1012-1145). */
module Replies {
  import opened Bytes
  import opened Namespace
  import opened Lifetime

  // ---------- Replies ----------

  /** Some entry leads to the inode. */
  ghost predicate HasEntry(db: Db, i: nat) {
    exists s :: s in db.dentry && db.dentry[s].child == i
  }

  /** The directory has an entry besides '.' and '..'. */
  ghost predicate Filled(db: Db, d: nat) {
    exists s :: s in db.dentry && s.parent == d && s.name != "." && s.name != ".."
  }

  predicate NumbersLeft(db: Db) {
    db.lastIno + 1 < 0x1_0000_0000
  }

  lemma HasEntryIsReferenced(db: Db, i: nat)
    ensures HasEntry(db, i) <==> Referenced(db, i)
  {
    if s :| s in db.dentry && db.dentry[s].child == i {
      assert RefersTo(db, s, i);
    }
    if Referenced(db, i) {
      var s :| RefersTo(db, s, i);
    }
  }

  lemma FilledIsNotEmpty(db: Db, d: nat)
    ensures Filled(db, d) <==> !IsEmpty(db, d)
  {
  }

  lemma LookupReply(fs: Fs, parent: nat, name: string)
    requires Sendable(fs, Lookup(parent, name))
    ensures var t, reply := fs.db.dentry, Step(fs, Lookup(parent, name)).1;
      reply == if Slot(parent, name) in t then Inode(t[Slot(parent, name)].child) else Fails(ENOENT)
  {
  }

  /** A new directory gets the next number exactly if the parent is there and not removed, the name is free, and
    * there is a number. */
  lemma MkdirReply(fs: Fs, parent: nat, name: string)
    requires Inv(fs) && Sendable(fs, Mkdir(parent, name))
    ensures var db, reply := fs.db, Step(fs, Mkdir(parent, name)).1;
      reply == if parent in db.meta && HasEntry(db, parent) && Slot(parent, name) !in db.dentry && NumbersLeft(db)
               then Inode(db.lastIno + 1) else Fails(ENOENT)
  {
    hide Tree, HasEntry, Referenced, Usable, NewEntries;
    HasEntryIsReferenced(fs.db, parent);
    NumbersBelow(fs.db);
  }

  /** An existing name is looked up; a new file gets the next number under the conditions of mkdir. */
  lemma CreateReply(fs: Fs, parent: nat, name: string)
    requires Inv(fs) && Sendable(fs, Create(parent, name))
    ensures var db, reply := fs.db, Step(fs, Create(parent, name)).1;
      reply == if Slot(parent, name) in db.dentry then Inode(db.dentry[Slot(parent, name)].child)
               else if parent in db.meta && HasEntry(db, parent) && NumbersLeft(db) then Inode(db.lastIno + 1)
               else Fails(ENOENT)
  {
    hide Tree, HasEntry, Referenced, Usable, NewEntries;
    HasEntryIsReferenced(fs.db, parent);
    NumbersBelow(fs.db);
  }

  lemma SymlinkReply(fs: Fs, parent: nat, name: string, text: bytes)
    requires Inv(fs) && Sendable(fs, MakeSymlink(parent, name, text))
    ensures var db, reply := fs.db, Step(fs, MakeSymlink(parent, name, text)).1;
      reply == if parent in db.meta && Slot(parent, name) !in db.dentry && NumbersLeft(db) then
                 if |text| > 4096 then Fails(ENAMETOOLONG) else Inode(db.lastIno + 1)
               else Fails(ENOENT)
  {
    hide Tree, LinkedDir, NewEntries;
    UsableIsKnown(fs.db, parent);
  }

  lemma LinkReply(fs: Fs, ino: nat, parent: nat, name: string)
    requires Sendable(fs, Link(ino, parent, name))
    ensures var db, reply := fs.db, Step(fs, Link(ino, parent, name)).1;
      reply == if ino !in db.meta || !HasEntry(db, ino) then Fails(ENOENT)
               else if db.meta[ino] != RegularFile then Fails(EPERM)
               else if Slot(parent, name) in db.dentry then Fails(EEXIST)
               else if parent !in db.meta then Fails(ENOENT)
               else Inode(ino)
  {
    hide HasEntry, Referenced, Usable;
    HasEntryIsReferenced(fs.db, ino);
  }

  lemma UnlinkReply(fs: Fs, parent: nat, name: string)
    requires Sendable(fs, Unlink(parent, name))
    ensures var reply := Step(fs, Unlink(parent, name)).1;
      reply == if Slot(parent, name) in fs.db.dentry then Done else Fails(ENOENT)
  {
  }

  lemma RmdirReply(fs: Fs, parent: nat, name: string)
    requires Sendable(fs, Rmdir(parent, name))
    ensures var t, reply := fs.db.dentry, Step(fs, Rmdir(parent, name)).1;
      reply == if Slot(parent, name) !in t then Fails(ENOENT)
               else if Filled(fs.db, t[Slot(parent, name)].child) then Fails(ENOTEMPTY)
               else Done
  {
    hide IsEmpty, Filled;
    if Slot(parent, name) in fs.db.dentry {
      FilledIsNotEmpty(fs.db, fs.db.dentry[Slot(parent, name)].child);
    }
  }

  lemma RenameReply(fs: Fs, src: Slot, dst: Slot)
    requires Sendable(fs, Rename(src.parent, src.name, dst.parent, dst.name))
    ensures var t, reply := fs.db.dentry, Step(fs, Rename(src.parent, src.name, dst.parent, dst.name)).1;
      reply == if src !in t then Fails(ENOENT)
               else if dst in t && t[dst].kind != t[src].kind then
                 match t[dst].kind
                 case Directory => Fails(EISDIR)
                 case RegularFile => Fails(ENOTDIR)
                 case Symlink => Fails(ENOENT)
               else if dst in t && t[dst].kind == Directory && Filled(fs.db, t[dst].child) then Fails(ENOTEMPTY)
               else if dst.parent !in fs.db.meta then Fails(ENOENT)
               else Done
  {
    hide IsEmpty, Filled, Usable, Below, Moved;
    if dst in fs.db.dentry {
      FilledIsNotEmpty(fs.db, fs.db.dentry[dst].child);
    }
  }

  // ---------- Lookup counts ----------

  /** All replies of a run. */
  ghost function RepliesOf(fs: Fs, rs: seq<Request>): (replies: seq<Reply>)
    requires SendableRun(fs, rs)
    ensures |replies| == |rs|
    decreases |rs|
  {
    if rs == [] then [] else [Step(fs, rs[0]).1] + RepliesOf(Step(fs, rs[0]).0, rs[1..])
  }

  lemma NoReplies(fs: Fs)
    ensures SendableRun(fs, []) && RepliesOf(fs, []) == []
  {
  }

  lemma {:induction false} RepliesSnoc(fs: Fs, rs: seq<Request>, r: Request)
    requires SendableRun(fs, rs) && Sendable(Run(fs, rs), r) && SendableRun(fs, rs + [r])
    ensures RepliesOf(fs, rs + [r]) == RepliesOf(fs, rs) + [Step(Run(fs, rs), r).1]
    decreases |rs|
  {
    hide Sendable, Step;
    if rs == [] {
      assert [] + [r] == [r] && [r][1..] == [];
    } else {
      assert (rs + [r])[1..] == rs[1..] + [r];
      RepliesSnoc(Step(fs, rs[0]).0, rs[1..], r);
    }
  }

  /** How often the inode has been handed to the kernel. */
  function Given(replies: seq<Reply>, i: nat): nat {
    if replies == [] then 0 else (if replies[0] == Inode(i) then 1 else 0) + Given(replies[1..], i)
  }

  /** How many references the kernel has returned. */
  function Returned(rs: seq<Request>, i: nat): nat {
    if rs == [] then 0 else (if rs[0].Forget? && rs[0].ino == i then rs[0].n else 0) + Returned(rs[1..], i)
  }

  lemma StepCounts(fs: Fs, r: Request, i: nat)
    requires Sendable(fs, r)
    ensures var (fs', reply) := Step(fs, r);
      (if i in fs'.held then fs'.held[i] else 0) + (if r.Forget? && r.ino == i then r.n else 0)
      == (if i in fs.held then fs.held[i] else 0) + (if reply == Inode(i) then 1 else 0)
  {
    hide AddInodeAndDentry, LinkDentry, DeleteDentry, MoveDentry, DropIfUnreferenced, IsEmpty, CanGetInode,
         Usable, Below;
  }

  /** The lookup count of an inode is what has been handed out less what has come back, and an inode is held exactly if
    * that is not zero. */
  lemma {:induction false} CountsAddUp(fs: Fs, rs: seq<Request>, i: nat)
    requires Inv(fs) && SendableRun(fs, rs)
    ensures var held, replies := Run(fs, rs).held, RepliesOf(fs, rs);
      var before := if i in fs.held then fs.held[i] else 0;
      && (if i in held then held[i] else 0) + Returned(rs, i) == before + Given(replies, i)
      && (i in held <==> before + Given(replies, i) > Returned(rs, i))
    decreases |rs|
  {
    hide Tree, NoOrphans, Step, Sendable;
    if rs != [] {
      var next := Step(fs, rs[0]).0;
      StepKeepsInv(fs, rs[0]);
      StepCounts(fs, rs[0], i);
      CountsAddUp(next, rs[1..], i);
      assert RepliesOf(fs, rs)[1..] == RepliesOf(next, rs[1..]);
    }
  }
}
