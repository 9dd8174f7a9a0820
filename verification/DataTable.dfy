/** The data table as an object: statements that change it, their triggers, and apply_diffs
  * (src/db_module/sqlite.rs:59-92, 273-353, 680-737, 961-975, 1292-1341). */
module DataTable {
  import opened Wrappers
  import opened Bytes
  import opened SizeHeader
  import opened AuditLog
  import DeltaApply
  import DeltaCreate

  /** A key whose last creation is still in force, and the seq of that creation. */
  datatype Creation = Creation(key: Key, seq_: nat)

  ghost function ListedKeys(brfs: seq<Creation>): set<Key> {
    set c | c in brfs :: c.key
  }

  lemma ListedAppend(brfs: seq<Creation>, c: Creation)
    ensures ListedKeys(brfs + [c]) == ListedKeys(brfs) + {c.key}
  {
    forall k | k in ListedKeys(brfs) + {c.key}
      ensures k in ListedKeys(brfs + [c])
    {
      if k == c.key {
        assert c in brfs + [c];
      } else {
        var d :| d in brfs && d.key == k;
        assert d in brfs + [c];
      }
    }
  }

  /** `order` lists every key of `keys` exactly once. */
  ghost predicate Enumerates(order: seq<Key>, keys: set<Key>) {
    && (forall k :: k in order <==> k in keys)
    && (forall i, j :: 0 <= i < j < |order| ==> order[i] != order[j])
  }

  /** The DELETE rows for the keys of `order`, with the data the table held. */
  function DeleteRows(t: Table, order: seq<Key>): seq<LogRow>
    requires forall k :: k in order ==> k in t
  {
    if order == [] then []
    else
      var k := order[|order| - 1];
      DeleteRows(t, order[..|order| - 1]) + [LogRow(DELETE, k, t[k])]
  }

  lemma EnumeratesNone()
    ensures Enumerates([], {})
    ensures forall t: Table :: DeleteRows(t, []) == []
  {
  }

  lemma Extend(order: seq<Key>, keys: set<Key>, k: Key)
    requires Enumerates(order, keys) && k !in keys
    ensures Enumerates(order + [k], keys + {k})
  {
  }

  lemma DeleteRowsAppend(t: Table, order: seq<Key>, k: Key)
    requires k in t && forall j :: j in order ==> j in t
    ensures DeleteRows(t, order + [k]) == DeleteRows(t, order) + [LogRow(DELETE, k, t[k])]
  {
    assert (order + [k])[..|order|] == order;
  }

  lemma MaxSeqStep(log: seq<LogRow>, n: nat, op: TgOp, k: Key)
    requires n < |log|
    ensures MaxSeq(log[..n + 1], op, k)
         == if log[n].op == op && log[n].key == k then n + 1 else MaxSeq(log[..n], op, k)
  {
    assert log[..n + 1][..n] == log[..n];
  }

  /** `m` gives the maximal seq of every key that has one. */
  ghost predicate Grouped(m: map<Key, nat>, log: seq<LogRow>, op: TgOp) {
    forall k :: MaxSeq(log, op, k) == if k in m then m[k] else 0
  }

  lemma GroupedStep(m: map<Key, nat>, log: seq<LogRow>, n: nat, op: TgOp)
    requires n < |log| && Grouped(m, log[..n], op)
    ensures Grouped(if log[n].op == op then m[log[n].key := n + 1] else m, log[..n + 1], op)
  {
    hide MaxSeq;
    var m' := if log[n].op == op then m[log[n].key := n + 1] else m;
    forall k
      ensures MaxSeq(log[..n + 1], op, k) == if k in m' then m'[k] else 0
    {
      MaxSeqStep(log, n, op, k);
      assert MaxSeq(log[..n], op, k) == if k in m then m[k] else 0;
    }
  }

  /** SELECT max(seq) ... WHERE TG_OP = op GROUP BY file_id, block_num */
  method GroupMaxSeq(log: seq<LogRow>, op: TgOp) returns (m: map<Key, nat>)
    ensures Grouped(m, log, op) && forall k :: k in m ==> m[k] > 0
  {
    m := map[];
    var n := 0;
    assert log[..0] == [];
    while n < |log|
      invariant 0 <= n <= |log|
      invariant Grouped(m, log[..n], op) && forall k :: k in m ==> m[k] > 0
    {
      hide Grouped;
      GroupedStep(m, log, n, op);
      if log[n].op == op {
        m := m[log[n].key := n + 1];
      }
      n := n + 1;
    }
    assert log[..|log|] == log;
  }

  /** get_max_creation_seq: creations joined with deletions, keeping cr_seq > de_seq OR de_seq IS NULL. */
  method GetMaxCreationSeq(log: seq<LogRow>) returns (brfs: seq<Creation>)
    ensures forall k :: Created(log, k) <==> k in ListedKeys(brfs)
    ensures forall j :: 0 <= j < |brfs| ==> brfs[j].seq_ == MaxSeq(log, INSERT, brfs[j].key)
    ensures forall i, j :: 0 <= i < j < |brfs| ==> brfs[i].key != brfs[j].key
  {
    hide MaxSeq;
    var crSeqs := GroupMaxSeq(log, INSERT);
    var deSeqs := GroupMaxSeq(log, DELETE);
    brfs := [];
    var todo := crSeqs.Keys;
    while todo != {}
      invariant todo <= crSeqs.Keys
      invariant forall k :: Created(log, k) && k !in todo <==> k in ListedKeys(brfs)
      invariant forall j :: 0 <= j < |brfs| ==> brfs[j].seq_ == MaxSeq(log, INSERT, brfs[j].key)
      invariant forall i, j :: 0 <= i < j < |brfs| ==> brfs[i].key != brfs[j].key
      decreases todo
    {
      var k :| k in todo;
      todo := todo - {k};
      if k !in deSeqs || crSeqs[k] > deSeqs[k] {
        ListedAppend(brfs, Creation(k, crSeqs[k]));
        brfs := brfs + [Creation(k, crSeqs[k])];
      }
    }
  }

  /** SELECT data ... WHERE file_id, block_num match AND seq >= from ORDER BY seq */
  method SelectHistory(log: seq<LogRow>, k: Key, from: nat) returns (h: seq<bytes>)
    ensures h == History(log, k, from)
  {
    h := [];
    var n := 0;
    while n < |log|
      invariant 0 <= n <= |log|
      invariant h == History(log[..n], k, from)
    {
      assert log[..n + 1][..n] == log[..n];
      if log[n].key == k && n + 1 >= from {
        h := h + [log[n].data];
      }
      n := n + 1;
    }
    assert log[..|log|] == log;
  }

  /** SELECT delta_apply(data, uncompress(patch)); an error keeps the data as it is. */
  method TryPatch(ext: Ext, data: bytes, patch: bytes) returns (r: bytes)
    ensures r == Patched(ext, data, patch)
  {
    hide UncompressSpec, DeltaApply.DeltaFormat.Apply;
    var delta := Uncompress(ext.zlib, patch);
    match delta {
      case None => r := data;
      case Some(d) =>
        var out := DeltaApply.DeltaApplyFunc(ext.test, data, d);
        match out {
          case Done(v) => r := v;
          case _ => r := data;
        }
    }
  }

  /** The inner loop of apply_diffs: pop the creation, patch it with the rest. */
  method FoldPatches(ext: Ext, entries: seq<bytes>) returns (patchedData: bytes)
    requires entries != []
    ensures patchedData == PatchAll(ext, entries[0], entries[1..])
  {
    hide Patched;
    patchedData := entries[0];
    var patches := entries[1..];
    var i := 0;
    while i < |patches|
      invariant 0 <= i <= |patches|
      invariant patchedData == PatchAll(ext, entries[0], patches[..i])
    {
      assert patches[..i + 1][..i] == patches[..i];
      patchedData := TryPatch(ext, patchedData, patches[i]);
      i := i + 1;
    }
    assert patches[..|patches|] == patches;
  }

  class Data {
    const ext: Ext
    var rows: Table
    var log: seq<LogRow>

    ghost predicate Valid()
      reads this
    {
      && Inverse(ext.zlib)
      && BlobsFit(rows)
      && Replay(ext, log) == rows
    }

    constructor (ext: Ext)
      requires Inverse(ext.zlib)
      ensures Valid() && this.ext == ext && rows == map[] && log == []
    {
      this.ext, rows, log := ext, map[], [];
    }

    /** INSERT ... ON CONFLICT (file_id, block_num) DO UPDATE SET data = excluded.data */
    method UpsertRow(k: Key, d: bytes)
      requires Valid() && |d| < 0x4000_0000
      modifies this
      ensures Valid()
      ensures rows == Changed(old(rows), Upsert(k, d))
      ensures log == old(log) + Logged(ext, old(rows), Upsert(k, d))
    {
      hide Replay, Inverse, DeltaCreate.Encode, CompressSpec;
      ChangeKeepsReplay(ext, rows, log, Upsert(k, d));
      if k in rows {
        var delta := DeltaCreate.DeltaCreateFunc(rows[k], d);
        DeltaCreate.EncodeLength(rows[k], d);
        var patch := Compress(ext.zlib, delta);
        rows := rows[k := d];
        log := log + [LogRow(UPDATE, k, patch)];
      } else {
        rows := rows[k := d];
        log := log + [LogRow(INSERT, k, d)];
      }
    }

    /** REPLACE: with recursive triggers off the row that makes way fires no DELETE trigger. */
    method ReplaceRow(k: Key, d: bytes)
      requires Valid() && |d| < 0x4000_0000
      modifies this
      ensures Valid()
      ensures rows == Changed(old(rows), Replace(k, d))
      ensures log == old(log) + Logged(ext, old(rows), Replace(k, d))
    {
      hide Replay, Inverse;
      ChangeKeepsReplay(ext, rows, log, Replace(k, d));
      rows := rows - {k};
      rows := rows[k := d];
      log := log + [LogRow(INSERT, k, d)];
    }

    /** A DELETE statement or a cascade that hits exactly the rows of `keys`, in some order. */
    method DeleteKeys(keys: set<Key>) returns (ghost order: seq<Key>)
      requires Valid() && keys <= rows.Keys
      modifies this
      ensures Valid()
      ensures rows == old(rows) - keys
      ensures Enumerates(order, keys) && log == old(log) + DeleteRows(old(rows), order)
    {
      hide Valid, Enumerates, DeleteRows;
      order := [];
      EnumeratesNone();
      var todo := keys;
      assert keys - todo == {} && keys - {} == keys;
      while todo != {}
        invariant Valid() && todo <= keys
        invariant rows == old(rows) - (keys - todo)
        invariant Enumerates(order, keys - todo)
        invariant (forall k :: k in order ==> k in old(rows)) && log == old(log) + DeleteRows(old(rows), order)
        decreases todo
      {
        var k :| k in todo;
        Extend(order, keys - todo, k);
        assert keys - (todo - {k}) == keys - todo + {k};
        DeleteOne(k);
        todo := todo - {k};
        DeleteRowsAppend(old(rows), order, k);
        Assoc(old(log), DeleteRows(old(rows), order), [LogRow(DELETE, k, old(rows)[k])]);
        order := order + [k];
      }
    }

    /** One row goes, and its trigger fires. */
    method DeleteOne(k: Key)
      requires Valid() && k in rows
      modifies this
      ensures Valid() && rows == old(rows) - {k} && log == old(log) + [LogRow(DELETE, k, old(rows)[k])]
    {
      hide Replay, Inverse;
      ChangeKeepsReplay(ext, rows, log, Remove(k));
      log := log + [LogRow(DELETE, k, rows[k])];
      rows := rows - {k};
    }

    /** DELETE FROM data WHERE file_id = file; also the cascade from deleting the inode. */
    method DeleteFile(file: nat) returns (ghost order: seq<Key>)
      requires Valid()
      modifies this
      ensures Valid()
      ensures rows == map k | k in old(rows) && k.file != file :: old(rows)[k]
      ensures Enumerates(order, set k | k in old(rows) && k.file == file)
      ensures log == old(log) + DeleteRows(old(rows), order)
    {
      order := DeleteKeys(set k | k in rows && k.file == file);
    }

    /** DELETE FROM data WHERE file_id = file and block_num > block */
    method DeleteAbove(file: nat, block: nat) returns (ghost order: seq<Key>)
      requires Valid()
      modifies this
      ensures Valid()
      ensures rows == map k | k in old(rows) && !(k.file == file && k.block > block) :: old(rows)[k]
      ensures Enumerates(order, set k | k in old(rows) && k.file == file && k.block > block)
      ensures log == old(log) + DeleteRows(old(rows), order)
    {
      order := DeleteKeys(set k | k in rows && k.file == file && k.block > block);
    }

    /** apply_diffs: the rebuilt table, for any log; in every valid state it is the live table. */
    method ApplyDiffs() returns (bdata: Table)
      ensures bdata == Replay(ext, log)
      ensures Valid() ==> bdata == rows
    {
      hide Replay, History, PatchAll, Patched, MaxSeq;
      var brfs := GetMaxCreationSeq(log);
      bdata := map[];
      var i := 0;
      while i < |brfs|
        invariant 0 <= i <= |brfs|
        invariant bdata.Keys == ListedKeys(brfs[..i])
        invariant forall k :: k in bdata ==> Created(log, k) && bdata[k] == Rebuilt(ext, log, k)
      {
        var brf := brfs[i];
        assert brf in brfs && brfs[..i + 1] == brfs[..i] + [brf];
        ListedAppend(brfs[..i], brf);
        var entries := SelectHistory(log, brf.key, brf.seq_);
        HistoryStartsAtCreation(log, brf.key);
        var patchedData := FoldPatches(ext, entries);
        bdata := bdata[brf.key := patchedData];
        i := i + 1;
      }
      assert brfs[..|brfs|] == brfs;
      forall k
        ensures k in bdata <==> k in Replay(ext, log)
        ensures k in bdata ==> bdata[k] == Replay(ext, log)[k]
      {
        RebuiltIsReplay(ext, log, k);
      }
    }
  }
}
