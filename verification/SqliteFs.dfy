/** The namespace handlers as objects: database transactions over the metadata and dentry tables, and the
  * lookup-count map (src/db_module/sqlite.rs:120-132, 142-191, 229-268, 355-372, 374-428, 863-896, 961-975,
  * 1012-1149, 1328-1334; src/filesystem.rs:210-300, 464-781, 1277-1362). */
module SqliteFs {
  import opened Wrappers
  import opened Bytes
  import opened Namespace
  import opened Lifetime

  /** The database: a transaction works on the fields and puts them back if it fails. */
  class Database {
    var meta: map<nat, Kind>
    var dentry: map<Slot, Entry>
    var lastIno: nat

    function Tables(): Db
      reads this
    {
      Db(meta, dentry, lastIno)
    }

    /** A freshly initialised database. */
    constructor ()
      ensures Tables() == NEW_DB
    {
      meta := map[ROOT := Directory];
      dentry := map[Slot(ROOT, ".") := Entry(ROOT, Directory), Slot(ROOT, "..") := Entry(ROOT, Directory)];
      lastIno := ROOT;
    }

    /** INSERT INTO dentry: both inodes must exist, the slot must be free. */
    method AddDentry(s: Slot, e: Entry) returns (ok: bool)
      modifies this`dentry
      ensures ok <==> s.parent in meta && e.child in meta && s !in old(dentry)
      ensures dentry == if ok then old(dentry)[s := e] else old(dentry)
    {
      ok := s.parent in meta && e.child in meta && s !in dentry;
      if ok {
        dentry := dentry[s := e];
      }
    }

    /** SELECT count(child_id) FROM dentry WHERE child_id = i */
    method CountLinks(i: nat) returns (nlink: nat)
      ensures nlink == 0 <==> !Referenced(Tables(), i)
    {
      var slots := set s | s in dentry && dentry[s].child == i;
      nlink := |slots|;
      if slots != {} {
        var s :| s in slots;
        assert RefersTo(Tables(), s, i);
      } else {
        forall s
          ensures !RefersTo(Tables(), s, i)
        {
          assert s !in slots;
        }
      }
    }

    /** get_inode: nothing if the row is missing, an error if its link count is NULL. */
    method GetInode(i: nat) returns (r: Result<Option<Kind>>)
      ensures r == if i !in meta then Ok(None)
                   else if Referenced(Tables(), i) then Ok(Some(meta[i])) else Err(Sql)
    {
      if i !in meta {
        return Ok(None);
      }
      var nlink := CountLinks(i);
      if nlink == 0 {
        return Err(Sql);
      }
      return Ok(Some(meta[i]));
    }

    /** add_inode_and_dentry */
    method NewInode(parent: nat, name: string, kind: Kind) returns (r: Result<nat>)
      requires Rows(Tables())
      modifies this
      ensures match AddInodeAndDentry(old(Tables()), parent, name, kind)
              case Ok((db, ino)) => r == Ok(ino) && Tables() == db
              case Err(e) => r == Err(e) && Tables() == old(Tables())
    {
      hide Rows, NewEntries;
      var meta0, dentry0, lastIno0 := meta, dentry, lastIno;
      var child := lastIno + 1;
      if child >= 0x1_0000_0000 {
        return Err(Sql);
      }
      AddFresh(Tables());
      EntriesOf(dentry, parent, name, child, kind);
      lastIno := child;
      meta := meta[child := kind];
      var ok := AddDentry(Slot(parent, name), Entry(child, kind));
      if !ok {
        meta, dentry, lastIno := meta0, dentry0, lastIno0;
        return Err(Sql);
      }
      if kind == Directory {
        ok := AddDots(parent, child);
        if !ok {
          meta, dentry, lastIno := meta0, dentry0, lastIno0;
          return Err(Sql);
        }
      }
      return Ok(child);
    }

    lemma EntriesOf(t: map<Slot, Entry>, parent: nat, name: string, ino: nat, kind: Kind)
      ensures kind != Directory ==> t + NewEntries(parent, name, ino, kind) == t[Slot(parent, name) := Entry(ino, kind)]
      ensures kind == Directory && !(parent == ino && IsDot(name)) ==>
                t + NewEntries(parent, name, ino, kind)
                == t[Slot(parent, name) := Entry(ino, kind)][Slot(ino, "..") := Entry(parent, kind)]
                    [Slot(ino, ".") := Entry(ino, kind)]
    {
    }

    /** The two entries of a new directory, if their slots are free. */
    method AddDots(parent: nat, child: nat) returns (ok: bool)
      requires parent in meta && child in meta
      modifies this`dentry
      ensures ok <==> Slot(child, "..") !in old(dentry) && Slot(child, ".") !in old(dentry)
      ensures ok ==> dentry == old(dentry)[Slot(child, "..") := Entry(parent, Directory)]
                                          [Slot(child, ".") := Entry(child, Directory)]
    {
      ok := AddDentry(Slot(child, ".."), Entry(parent, Directory));
      if ok {
        ok := AddDentry(Slot(child, "."), Entry(child, Directory));
      }
    }

    /** link_dentry */
    method LinkFile(ino: nat, parent: nat, name: string) returns (r: Result<()>)
      modifies this
      ensures match LinkDentry(old(Tables()), ino, parent, name)
              case Ok(db) => r == Ok(()) && Tables() == db
              case Err(e) => r == Err(e) && Tables() == old(Tables())
    {
      var attr := GetInode(ino);
      match attr {
        case Err(e) => return Err(e);
        case Ok(None) => return Err(NoEnt);
        case Ok(Some(kind)) =>
          if kind != RegularFile {
            return Err(NotRegular);
          }
          if Slot(parent, name) in dentry {
            return Err(Exists);
          }
          var ok := AddDentry(Slot(parent, name), Entry(ino, RegularFile));
          return if ok then Ok(()) else Err(Sql);
      }
    }

    /** delete_dentry */
    method DeleteEntry(parent: nat, name: string) returns (r: Result<nat>)
      modifies this`dentry
      ensures match DeleteDentry(old(Tables()), parent, name)
              case Ok((db, child)) => r == Ok(child) && Tables() == db
              case Err(e) => r == Err(e) && Tables() == old(Tables())
    {
      if Slot(parent, name) !in dentry {
        return Err(Sql);
      }
      var child := dentry[Slot(parent, name)].child;
      if !IsDot(name) {
        dentry := dentry - {Slot(parent, name)};
      }
      dentry := map s | s in dentry && s.parent != child :: dentry[s];
      assert Tables() == DeleteDentry(old(Tables()), parent, name).value.0;
      return Ok(child);
    }

    /** check_directory_is_empty_local: look at the names one by one. */
    method DirectoryIsEmpty(d: nat) returns (empty: bool)
      ensures empty <==> IsEmpty(Tables(), d)
    {
      var rows := set s | s in dentry && s.parent == d;
      while rows != {}
        invariant rows <= set s | s in dentry && s.parent == d
        invariant forall s :: s in dentry && s.parent == d && s !in rows ==> IsDot(s.name)
        decreases rows
      {
        var s :| s in rows;
        if !IsDot(s.name) {
          return false;
        }
        rows := rows - {s};
      }
      return true;
    }

    /** move_dentry */
    method MoveEntry(src: Slot, dst: Slot) returns (r: Result<Option<nat>>)
      modifies this`dentry
      ensures match MoveDentry(old(Tables()), src, dst)
              case Ok((db, overwritten)) => r == Ok(overwritten) && Tables() == db
              case Err(e) => r == Err(e) && Tables() == old(Tables())
    {
      if src !in dentry {
        return Err(NoEnt);
      }
      var entry := dentry[src];
      var res: Option<nat> := None;
      var dentry0 := dentry;
      if dst in dentry {
        var exist := dentry[dst];
        if entry.kind != exist.kind {
          match exist.kind
          case Directory => return Err(IsDir);
          case RegularFile => return Err(IsNotDir);
          case Symlink => return Err(OtherType);
        }
        if exist.kind == Directory {
          var empty := DirectoryIsEmpty(exist.child);
          if !empty {
            return Err(NotEmpty);
          }
        }
        if !IsDot(dst.name) {
          dentry := dentry - {dst};
        }
        res := Some(exist.child);
      }
      if src == dst {
        assert dentry == Moved(old(Tables()), src, dst).dentry;
        return Ok(res);
      }
      if dst.parent !in meta || dst in dentry {
        dentry := dentry0;
        return Err(Sql);
      }
      dentry := (dentry - {src})[dst := entry];
      assert dentry == (dentry0 - {src, dst})[dst := entry];
      if src.parent != dst.parent && entry.kind == Directory {
        var up := Slot(entry.child, "..");
        if up in dentry {
          dentry := dentry[up := Entry(dst.parent, dentry[up].kind)];
        }
      }
      return Ok(res);
    }

    /** DELETE FROM metadata WHERE id = i with its cascade, if no entry refers to i. */
    method DeleteInodeIfNoRef(i: nat)
      modifies this
      ensures Tables() == DropIfUnreferenced(old(Tables()), i)
    {
      var nlink := CountLinks(i);
      if nlink == 0 {
        meta := meta - {i};
        dentry := map s | s in dentry && s.parent != i && dentry[s].child != i :: dentry[s];
        assert Tables() == RemoveInode(old(Tables()), i);
      }
    }

    /** The inodes for which an entry exists. */
    method ReferencedInodes() returns (referenced: set<nat>)
      ensures forall i :: i in referenced <==> Referenced(Tables(), i)
    {
      ghost var db := Tables();
      referenced := set s | s in dentry :: dentry[s].child;
      forall i
        ensures i in referenced <==> Referenced(db, i)
      {
        if Referenced(db, i) {
          var s :| RefersTo(db, s, i);
        }
        if i in referenced {
          var s :| s in dentry && dentry[s].child == i;
          assert RefersTo(db, s, i);
        }
      }
    }

    /** delete_all_noref_inode */
    method DeleteAllNoRefInode()
      modifies this
      ensures Tables() == DropAll(old(Tables()))
    {
      hide Referenced;
      var referenced := ReferencedInodes();
      meta := map i | i in meta && i in referenced :: meta[i];
      dentry := map s | s in dentry && s.parent in meta && dentry[s].child in meta :: dentry[s];
      assert meta == DropAll(old(Tables())).meta && dentry == DropAll(old(Tables())).dentry;
    }
  }

  /** The mounted filesystem. */
  class SqliteFs {
    const db: Database
    var lookupCount: map<nat, nat>

    ghost function State(): Fs
      reads this, db
    {
      Fs(db.Tables(), lookupCount)
    }

    /** SqliteFs::new on a fresh database, followed by init. */
    constructor ()
      ensures fresh(db) && State() == Fs(DropAll(NEW_DB), map[]) && Inv(State())
    {
      hide Tree, DropAll;
      var d := new Database();
      db := d;
      lookupCount := map[];
      new;
      NewDbIsTree();
      MountEstablishesInv(NEW_DB);
      db.DeleteAllNoRefInode();
    }

    /** init: no inode is held yet. */
    method Init()
      requires Tree(db.Tables()) && lookupCount == map[]
      modifies db
      ensures State() == Fs(DropAll(old(db.Tables())), map[]) && Inv(State())
    {
      hide Tree;
      MountEstablishesInv(db.Tables());
      db.DeleteAllNoRefInode();
    }

    /** destroy: every key of the lookup map is tried once, in any order. */
    method Destroy()
      requires Inv(State())
      modifies db
      ensures Tree(db.Tables()) && db.dentry == old(db.dentry)
      ensures forall i :: i in db.meta <==> i in old(db.meta) && Referenced(old(db.Tables()), i)
      ensures forall i :: i in db.meta ==> Referenced(db.Tables(), i) && db.meta[i] == old(db.meta)[i]
    {
      hide Tree, Referenced, DropIfUnreferenced;
      ghost var before := db.Tables();
      ghost var done := {};
      var todo := lookupCount.Keys;
      while todo != {}
        invariant todo + done == lookupCount.Keys
        invariant DroppedSome(before, db.Tables(), done)
        decreases todo
      {
        var key :| key in todo;
        DropOneMore(before, db.Tables(), done, key);
        db.DeleteInodeIfNoRef(key);
        todo, done := todo - {key}, done + {key};
      }
    }

    /** *lc += 1 on the entry of `ino`, which is created with 0 if need be. */
    method CountUp(ino: nat)
      modifies this`lookupCount
      ensures lookupCount == Take(old(lookupCount), ino)
    {
      if ino !in lookupCount {
        lookupCount := lookupCount[ino := 0];
      }
      lookupCount := lookupCount[ino := lookupCount[ino] + 1];
      assert lookupCount == Take(old(lookupCount), ino);
    }

    /** The tail of unlink, rmdir and rename. */
    method ReclaimInode(ino: nat)
      modifies db
      ensures State() == Reclaim(old(State()), ino)
    {
      if ino !in lookupCount {
        db.DeleteInodeIfNoRef(ino);
      }
    }

    method LookupName(parent: nat, name: string) returns (reply: Reply)
      modifies this`lookupCount
      ensures (State(), reply) == DoLookup(old(State()), parent, name)
    {
      if Slot(parent, name) !in db.dentry {
        return Fails(ENOENT);
      }
      var child := db.dentry[Slot(parent, name)].child;
      CountUp(child);
      return Inode(child);
    }

    method ForgetInode(ino: nat, n: nat)
      requires n <= Count(lookupCount, ino)
      modifies this`lookupCount, db
      ensures State() == DoForget(old(State()), ino, n)
    {
      if ino !in lookupCount {
        lookupCount := lookupCount[ino := 0];
      }
      lookupCount := lookupCount[ino := lookupCount[ino] - n];
      if lookupCount[ino] == 0 {
        lookupCount := lookupCount - {ino};
        assert lookupCount == old(lookupCount) - {ino};
        db.DeleteInodeIfNoRef(ino);
      } else {
        assert lookupCount == old(lookupCount)[ino := old(lookupCount)[ino] - n];
      }
    }

    method MakeDirectory(parent: nat, name: string) returns (reply: Reply)
      requires Sendable(State(), Mkdir(parent, name)) && Inv(State())
      modifies this`lookupCount, db
      ensures (State(), reply) == DoMkdir(old(State()), parent, name)
    {
      hide Tree, Referenced, AddInodeAndDentry;
      var attr := db.GetInode(parent);
      if attr.Err? || attr.value.None? {
        return Fails(ENOENT);
      }
      TreeRows(State().db);
      var ino := db.NewInode(parent, name, Directory);
      if ino.Err? {
        return Fails(ENOENT);
      }
      CountUp(ino.value);
      return Inode(ino.value);
    }

    method CreateFile(parent: nat, name: string) returns (reply: Reply)
      requires Sendable(State(), Create(parent, name)) && Inv(State())
      modifies this`lookupCount, db
      ensures (State(), reply) == DoCreate(old(State()), parent, name)
    {
      hide Tree, Referenced, AddInodeAndDentry;
      var ino;
      if Slot(parent, name) in db.dentry {
        ino := db.dentry[Slot(parent, name)].child;
      } else {
        var attr := db.GetInode(parent);
        if attr.Err? || attr.value.None? {
          return Fails(ENOENT);
        }
        TreeRows(State().db);
        var r := db.NewInode(parent, name, RegularFile);
        if r.Err? {
          return Fails(ENOENT);
        }
        ino := r.value;
      }
      CountUp(ino);
      return Inode(ino);
    }

    method CreateSymlink(parent: nat, name: string, text: bytes) returns (reply: Reply)
      requires Sendable(State(), MakeSymlink(parent, name, text)) && Inv(State())
      modifies this`lookupCount, db
      ensures (State(), reply) == DoSymlink(old(State()), parent, name, text)
    {
      hide Tree, Referenced, AddInodeAndDentry;
      TreeRows(State().db);
      var r := db.NewInode(parent, name, Symlink);
      if r.Err? {
        return Fails(ENOENT);
      }
      if |text| > 4096 {
        return Fails(ENAMETOOLONG);
      }
      CountUp(r.value);
      return Inode(r.value);
    }

    method LinkInode(ino: nat, parent: nat, name: string) returns (reply: Reply)
      modifies this`lookupCount, db
      ensures (State(), reply) == DoLink(old(State()), ino, parent, name)
    {
      hide LinkDentry;
      var r := db.LinkFile(ino, parent, name);
      match r {
        case Err(NotRegular) => return Fails(EPERM);
        case Err(Exists) => return Fails(EEXIST);
        case Err(_) => return Fails(ENOENT);
        case Ok(_) =>
          CountUp(ino);
          return Inode(ino);
      }
    }

    method UnlinkName(parent: nat, name: string) returns (reply: Reply)
      modifies db
      ensures (State(), reply) == DoUnlink(old(State()), parent, name)
    {
      hide DeleteDentry, Reclaim;
      var r := db.DeleteEntry(parent, name);
      if r.Err? {
        return Fails(ENOENT);
      }
      ReclaimInode(r.value);
      return Done;
    }

    method RemoveDirectory(parent: nat, name: string) returns (reply: Reply)
      modifies db
      ensures (State(), reply) == DoRmdir(old(State()), parent, name)
    {
      hide DeleteDentry, Reclaim, IsEmpty;
      if Slot(parent, name) !in db.dentry {
        return Fails(ENOENT);
      }
      var empty := db.DirectoryIsEmpty(db.dentry[Slot(parent, name)].child);
      if !empty {
        return Fails(ENOTEMPTY);
      }
      var r := db.DeleteEntry(parent, name);
      if r.Err? {
        return Fails(ENOENT);
      }
      ReclaimInode(r.value);
      return Done;
    }

    method RenameName(parent: nat, name: string, newParent: nat, newName: string) returns (reply: Reply)
      requires Sendable(State(), Rename(parent, name, newParent, newName))
      modifies db
      ensures (State(), reply) == DoRename(old(State()), Slot(parent, name), Slot(newParent, newName))
    {
      hide MoveDentry, Reclaim, Below, Usable;
      var entry := db.MoveEntry(Slot(parent, name), Slot(newParent, newName));
      match entry {
        case Err(NotEmpty) => return Fails(ENOTEMPTY);
        case Err(IsDir) => return Fails(EISDIR);
        case Err(IsNotDir) => return Fails(ENOTDIR);
        case Err(_) => return Fails(ENOENT);
        case Ok(overwritten) =>
          if overwritten.Some? {
            ReclaimInode(overwritten.value);
          }
          return Done;
      }
    }

    /** One request: the handler does what the specification says, and the invariant holds again. */
    method Serve(r: Request) returns (reply: Reply)
      requires Inv(State()) && Sendable(State(), r)
      modifies this`lookupCount, db
      ensures (State(), reply) == Step(old(State()), r)
      ensures Inv(State()) && Numbers(old(State()).db, State().db)
    {
      hide Inv, DoLookup, DoForget, DoMkdir, DoCreate, DoSymlink, DoLink, DoUnlink, DoRmdir, DoRename, Numbers;
      StepKeepsInv(State(), r);
      match r {
        case Lookup(parent, name) => reply := LookupName(parent, name);
        case Forget(ino, n) =>
          ForgetInode(ino, n);
          reply := Done;
        case Mkdir(parent, name) => reply := MakeDirectory(parent, name);
        case Create(parent, name) => reply := CreateFile(parent, name);
        case MakeSymlink(parent, name, text) => reply := CreateSymlink(parent, name, text);
        case Link(ino, parent, name) => reply := LinkInode(ino, parent, name);
        case Unlink(parent, name) => reply := UnlinkName(parent, name);
        case Rmdir(parent, name) => reply := RemoveDirectory(parent, name);
        case Rename(parent, name, newParent, newName) => reply := RenameName(parent, name, newParent, newName);
      }
    }
  }
}
