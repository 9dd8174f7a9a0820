/** The data table, the audit log its triggers write, and the replay of that log
  * (src/db_module/sqlite.rs:273-353, 680-737 and the statements that change the table). */
module AuditLog {
  import opened Wrappers
  import opened Bytes
  import opened SizeHeader
  import DeltaFormat
  import DeltaCreate

  /** Primary key of a block: inode and 1-based block number. */
  datatype Key = Key(file: nat, block: nat)

  type Table = map<Key, bytes>

  /** A row of data_audit; its seq (AUTOINCREMENT) is its position in the log, counted from 1. */
  datatype LogRow = LogRow(op: TgOp, key: Key, data: bytes)

  /** The loaded SQLite extensions: zlib, and fossildelta built with or without the checksum test. */
  datatype Ext = Ext(zlib: Zlib, test: bool)

  /** SELECT delta_apply(old, uncompress(patch)); an error is logged and leaves the data as it was. */
  function Patched(ext: Ext, old_: bytes, patch: bytes): bytes {
    match UncompressSpec(ext.zlib, patch)
    case None => old_
    case Some(delta) =>
      match DeltaFormat.Apply(ext.test, old_, delta)
      case Done(out) => out
      case _ => old_
  }

  /** compress(delta_create(OLD.data, NEW.data)) */
  function MakePatch(ext: Ext, old_: bytes, new_: bytes): bytes {
    CompressSpec(ext.zlib, DeltaCreate.Encode(old_, new_))
  }

  /** The patch an UPDATE logs carries the old block into the new one. */
  lemma PatchWorks(ext: Ext, old_: bytes, new_: bytes)
    requires Inverse(ext.zlib) && |old_| < 0x4000_0000 && |new_| < 0x4000_0000
    ensures Patched(ext, old_, MakePatch(ext, old_, new_)) == new_
  {
    hide DeltaCreate.Encode, DeltaFormat.Apply, CompressSpec, UncompressSpec, Inverse;
    DeltaCreate.RoundTrip(ext.test, old_, new_);
    DeltaCreate.EncodeLength(old_, new_);
    UncompressAfterCompress(ext.zlib, DeltaCreate.Encode(old_, new_));
  }

  // ---------- What a log means ----------

  /** One log row carried out on a table. */
  function ReplayRow(ext: Ext, t: Table, r: LogRow): Table {
    match r.op
    case INSERT => t[r.key := r.data]
    case UPDATE => if r.key in t then t[r.key := Patched(ext, t[r.key], r.data)] else t
    case DELETE => t - {r.key}
  }

  /** The log read from beginning to end. */
  function Replay(ext: Ext, log: seq<LogRow>): Table {
    if log == [] then map[] else ReplayRow(ext, Replay(ext, log[..|log| - 1]), log[|log| - 1])
  }

  // ---------- How apply_diffs reads it ----------

  /** max(seq) over the rows of one key and operation; 0 stands for NULL. */
  function MaxSeq(log: seq<LogRow>, op: TgOp, k: Key): (s: nat)
    ensures s <= |log|
  {
    if log == [] then 0
    else if log[|log| - 1].op == op && log[|log| - 1].key == k then |log|
    else MaxSeq(log[..|log| - 1], op, k)
  }

  /** get_max_creation_seq lists a key if its last creation is behind its last deletion. */
  predicate Created(log: seq<LogRow>, k: Key) {
    MaxSeq(log, INSERT, k) > MaxSeq(log, DELETE, k)
  }

  /** The data of the rows of `k` with seq >= from, ordered by seq. */
  function History(log: seq<LogRow>, k: Key, from: nat): seq<bytes> {
    if |log| < from || log == [] then []
    else
      var r := log[|log| - 1];
      History(log[..|log| - 1], k, from) + (if r.key == k then [r.data] else [])
  }

  function PatchAll(ext: Ext, d: bytes, patches: seq<bytes>): bytes {
    if patches == [] then d
    else Patched(ext, PatchAll(ext, d, patches[..|patches| - 1]), patches[|patches| - 1])
  }

  /** The block that apply_diffs rebuilds for `k`: the creation row, patched with everything behind it. */
  function Rebuilt(ext: Ext, log: seq<LogRow>, k: Key): bytes
    requires Created(log, k)
  {
    HistoryStartsAtCreation(log, k);
    var h := History(log, k, MaxSeq(log, INSERT, k));
    PatchAll(ext, h[0], h[1..])
  }

  lemma {:induction false} HistoryStartsAtCreation(log: seq<LogRow>, k: Key)
    requires Created(log, k)
    ensures |History(log, k, MaxSeq(log, INSERT, k))| > 0
  {
    var r := log[|log| - 1];
    if !(r.key == k && r.op == INSERT) {
      HistoryStartsAtCreation(log[..|log| - 1], k);
    }
  }

  lemma HistoryLater(log: seq<LogRow>, k: Key, from: nat)
    requires |log| < from
    ensures History(log, k, from) == []
  {
  }

  lemma SplitPatches(h: seq<bytes>, p: bytes)
    requires h != []
    ensures (h + [p])[0] == h[0] && (h + [p])[1..] == h[1..] + [p]
  {
  }

  lemma PatchLast(ext: Ext, d: bytes, patches: seq<bytes>, p: bytes)
    ensures PatchAll(ext, d, patches + [p]) == Patched(ext, PatchAll(ext, d, patches), p)
  {
    assert (patches + [p])[..|patches|] == patches;
  }

  /** Rebuilding key by key from the last creation gives what reading the log from the start gives,
    * for every log whatsoever. */
  lemma {:induction false} RebuiltIsReplay(ext: Ext, log: seq<LogRow>, k: Key)
    ensures k in Replay(ext, log) <==> Created(log, k)
    ensures Created(log, k) ==> Replay(ext, log)[k] == Rebuilt(ext, log, k)
  {
    hide Patched;
    if log != [] {
      var init, r := log[..|log| - 1], log[|log| - 1];
      RebuiltIsReplay(ext, init, k);
      if r.key == k {
        match r.op {
          case INSERT =>
            HistoryLater(init, k, |log|);
            assert History(log, k, |log|) == [r.data];
          case DELETE =>
          case UPDATE =>
            if Created(init, k) {
              HistoryStartsAtCreation(init, k);
              var h := History(init, k, MaxSeq(init, INSERT, k));
              SplitPatches(h, r.data);
              PatchLast(ext, h[0], h[1..], r.data);
            }
        }
      } else if Created(init, k) {
        HistoryStartsAtCreation(init, k);
        var h := History(init, k, MaxSeq(init, INSERT, k));
        assert h + [] == h;
      }
    }
  }

  // ---------- The table and its triggers ----------

  lemma ReplayAppend(ext: Ext, log: seq<LogRow>, r: LogRow)
    ensures Replay(ext, log + [r]) == ReplayRow(ext, Replay(ext, log), r)
  {
    assert (log + [r])[..|log|] == log;
  }

  /** A row change as SQLite carries it out, with the trigger that fires for it. */
  datatype Change =
    | Upsert(key: Key, data: bytes)   // INSERT ... ON CONFLICT DO UPDATE
    | Replace(key: Key, data: bytes)  // REPLACE: the old row goes without a trigger
    | Remove(key: Key)                // one row of a DELETE or of a foreign-key cascade

  /** The table after the change. */
  function Changed(t: Table, c: Change): Table {
    match c
    case Upsert(k, d) => t[k := d]
    case Replace(k, d) => t[k := d]
    case Remove(k) => t - {k}
  }

  /** The rows the triggers append. */
  function Logged(ext: Ext, t: Table, c: Change): seq<LogRow> {
    match c
    case Upsert(k, d) =>
      if k in t then [LogRow(UPDATE, k, MakePatch(ext, t[k], d))] else [LogRow(INSERT, k, d)]
    case Replace(k, d) => [LogRow(INSERT, k, d)]
    case Remove(k) => if k in t then [LogRow(DELETE, k, t[k])] else []
  }

  /** What a change logs: one row for its key, unless it deletes nothing. It holds all of the data, or, for an upsert of
    * a block that is there, a compressed delta from the old data to the new that is hardly longer than the new. */
  lemma TriggerRows(ext: Ext, t: Table, c: Change)
    requires Inverse(ext.zlib) && BlobsFit(t) && Storable(c)
    ensures var rows := Logged(ext, t, c);
      if c.Remove? && c.key !in t then rows == []
      else
        |rows| == 1 && rows[0].key == c.key &&
        match rows[0].op
        case INSERT => (c.Replace? || (c.Upsert? && c.key !in t)) && rows[0].data == c.data
        case DELETE => c.Remove? && rows[0].data == t[c.key]
        case UPDATE =>
          c.Upsert? && c.key in t &&
          var delta := UncompressSpec(ext.zlib, rows[0].data);
          && delta.Some? && |delta.value| <= |c.data| + 19
          && DeltaFormat.Apply(ext.test, t[c.key], delta.value) == DeltaFormat.Done(c.data)
  {
    hide DeltaCreate.Encode, DeltaFormat.Apply, CompressSpec, UncompressSpec, Inverse;
    if c.Upsert? && c.key in t {
      DeltaCreate.RoundTrip(ext.test, t[c.key], c.data);
      DeltaCreate.EncodeLength(t[c.key], c.data);
      UncompressAfterCompress(ext.zlib, DeltaCreate.Encode(t[c.key], c.data));
    }
  }

  /** A patch that cannot be read or applied leaves the block as it was. */
  lemma BadPatchIsSkipped(ext: Ext, old_: bytes, patch: bytes)
    ensures var delta := UncompressSpec(ext.zlib, patch);
      delta == None || !DeltaFormat.Apply(ext.test, old_, delta.value).Done? ==> Patched(ext, old_, patch) == old_
  {
  }

  /** Every block is a blob SQLite accepts (its limit is below 2^30 bytes). */
  ghost predicate BlobsFit(t: Table) {
    forall k :: k in t ==> |t[k]| < 0x4000_0000
  }

  predicate Storable(c: Change) {
    c.Remove? || |c.data| < 0x4000_0000
  }

  /** Whatever the change, the log that was a faithful history of the table still is one afterwards. */
  lemma ChangeKeepsReplay(ext: Ext, t: Table, log: seq<LogRow>, c: Change)
    requires Inverse(ext.zlib) && BlobsFit(t) && Storable(c)
    requires Replay(ext, log) == t
    ensures Replay(ext, log + Logged(ext, t, c)) == Changed(t, c)
    ensures BlobsFit(Changed(t, c))
  {
    hide Patched, MakePatch, Replay, Inverse;
    if Logged(ext, t, c) == [] {
      assert log + [] == log;
      assert Changed(t, c) == t;
    } else {
      ReplayAppend(ext, log, Logged(ext, t, c)[0]);
      if c.Upsert? && c.key in t {
        PatchWorks(ext, t[c.key], c.data);
      }
    }
  }

  /** Table and log after a run of changes that starts from an empty database. */
  function Run(ext: Ext, cs: seq<Change>): (Table, seq<LogRow>) {
    if cs == [] then (map[], [])
    else
      var (t, log) := Run(ext, cs[..|cs| - 1]);
      var c := cs[|cs| - 1];
      (Changed(t, c), log + Logged(ext, t, c))
  }

  /** In every reachable state of any run the log replays to the live table, and so does apply_diffs. */
  lemma {:induction false} EveryRunReplays(ext: Ext, cs: seq<Change>)
    requires Inverse(ext.zlib) && forall i :: 0 <= i < |cs| ==> Storable(cs[i])
    ensures var (t, log) := Run(ext, cs);
      && BlobsFit(t)
      && Replay(ext, log) == t
      && forall k :: (k in t <==> Created(log, k)) && (k in t ==> t[k] == Rebuilt(ext, log, k))
  {
    hide Inverse, Rebuilt, Created;
    if cs != [] {
      var init := cs[..|cs| - 1];
      EveryRunReplays(ext, init);
      var (t, log) := Run(ext, init);
      ChangeKeepsReplay(ext, t, log, cs[|cs| - 1]);
    }
    var (t, log) := Run(ext, cs);
    forall k
      ensures (k in t <==> Created(log, k)) && (k in t ==> t[k] == Rebuilt(ext, log, k))
    {
      RebuiltIsReplay(ext, log, k);
    }
  }
}
