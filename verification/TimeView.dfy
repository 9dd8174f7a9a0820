/** The point-in-time views tmetadata, txattr and tdentry (src/db_module/sqlite.rs:466-494) over the audit logs
  * that the triggers write (582-622, 651-681, 761-791). */
module TimeView {
  import opened Wrappers
  import opened Namespace

  /** An audit row; the timestamp is a number here, a text of fixed width in the database. */
  datatype Row<K, V> = Row(ts: int, op: TgOp, key: K, val: V)

  /** The clock never runs backwards while the log is written. */
  ghost predicate Ordered<K, V>(log: seq<Row<K, V>>) {
    forall i, j :: 0 <= i < j < |log| ==> log[i].ts <= log[j].ts
  }

  /** SELECT * FROM ..._audit WHERE timestamp_utc < t */
  function Before<K, V>(log: seq<Row<K, V>>, t: int): seq<Row<K, V>> {
    if log == [] then []
    else Before(log[..|log| - 1], t) + (if log[|log| - 1].ts < t then [log[|log| - 1]] else [])
  }

  /** A row of the view: not a DELETE, and no row of its key is later. */
  ghost predicate InView<K, V>(rows: seq<Row<K, V>>, r: Row<K, V>) {
    r in rows && r.op != DELETE && forall q :: q in rows && q.key == r.key ==> q.ts <= r.ts
  }

  /** The table that the log, read in order, describes. */
  function Live<K, V>(log: seq<Row<K, V>>): map<K, V> {
    if log == [] then map[]
    else
      var m, r := Live(log[..|log| - 1]), log[|log| - 1];
      if r.op == DELETE then m - {r.key} else m[r.key := r.val]
  }

  /** The last row of a key. */
  ghost predicate IsLast<K, V>(rows: seq<Row<K, V>>, k: K, at: nat) {
    at < |rows| && rows[at].key == k && forall j :: at < j < |rows| ==> rows[j].key != k
  }

  /** Every row that ties in time with the last row of the key says the same as the last row. Rows that say
    * DELETE do not matter, they are not shown. */
  ghost predicate Settled<K, V>(rows: seq<Row<K, V>>, k: K) {
    forall i: nat, at: nat ::
      IsLast(rows, k, at) && i <= at && rows[i].key == k && rows[i].op != DELETE && rows[i].ts == rows[at].ts ==>
        rows[at].op != DELETE && rows[at].val == rows[i].val
  }

  /** The view shows nothing for the key but its entry in the table `m`. */
  ghost predicate ShowsOnly<K(!new), V(!new)>(rows: seq<Row<K, V>>, k: K, m: map<K, V>) {
    forall r :: InView(rows, r) && r.key == k ==> k in m && m[k] == r.val
  }

  /** The view shows the entry of the key in the table `m`, if there is one. */
  ghost predicate Shows<K(!new), V(!new)>(rows: seq<Row<K, V>>, k: K, m: map<K, V>) {
    k in m ==> exists r :: InView(rows, r) && r.key == k && r.val == m[k]
  }

  lemma {:induction false} LastRow<K, V>(rows: seq<Row<K, V>>, k: K)
    ensures (exists at: nat :: IsLast(rows, k, at)) <==> exists r :: r in rows && r.key == k
    decreases |rows|
  {
    if rows != [] {
      var init, last := rows[..|rows| - 1], rows[|rows| - 1];
      LastRow(init, k);
      assert rows == init + [last];
      if last.key == k {
        assert IsLast(rows, k, |rows| - 1);
      } else if at: nat :| IsLast(init, k, at) {
        assert IsLast(rows, k, at);
      }
    }
  }

  /** The last row of a key decides what the table holds for it. */
  lemma {:induction false} LastRowDecides<K, V>(rows: seq<Row<K, V>>, k: K, at: nat)
    requires IsLast(rows, k, at)
    ensures k in Live(rows) <==> rows[at].op != DELETE
    ensures k in Live(rows) ==> Live(rows)[k] == rows[at].val
    decreases |rows|
  {
    if at < |rows| - 1 {
      assert rows[|rows| - 1].key != k;
      LastRowDecides(rows[..|rows| - 1], k, at);
    }
  }

  lemma {:induction false} LiveHasRow<K, V>(rows: seq<Row<K, V>>, k: K)
    requires k in Live(rows)
    ensures exists r :: r in rows && r.key == k
    decreases |rows|
  {
    var init, last := rows[..|rows| - 1], rows[|rows| - 1];
    assert rows == init + [last];
    if last.key != k {
      LiveHasRow(init, k);
    }
  }

  /** A row that ties with the last row of its key, or is it, is in the view unless it says DELETE. */
  lemma TiedIsVisible<K, V>(rows: seq<Row<K, V>>, k: K, i: nat, at: nat)
    requires Ordered(rows) && IsLast(rows, k, at)
    requires i <= at && rows[i].key == k && rows[i].op != DELETE && rows[i].ts == rows[at].ts
    ensures InView(rows, rows[i])
  {
    forall q | q in rows && q.key == k
      ensures q.ts <= rows[i].ts
    {
      var j :| 0 <= j < |rows| && rows[j] == q;
      assert j <= at;
    }
  }

  /** What the log says is live is in the view. */
  lemma LiveIsVisible<K(!new), V(!new)>(rows: seq<Row<K, V>>, k: K)
    requires Ordered(rows)
    ensures Shows(rows, k, Live(rows))
  {
    if k in Live(rows) {
      LiveHasRow(rows, k);
      LastRow(rows, k);
      var at: nat :| IsLast(rows, k, at);
      LastRowDecides(rows, k, at);
      TiedIsVisible(rows, k, at, at);
    }
  }

  /** And nothing else is, exactly when no row of the key that ties with its last row disagrees with it. */
  lemma VisibleIsLive<K(!new), V(!new)>(rows: seq<Row<K, V>>, k: K)
    requires Ordered(rows)
    ensures ShowsOnly(rows, k, Live(rows)) <==> Settled(rows, k)
  {
    hide Live;
    if Settled(rows, k) {
      forall r | InView(rows, r) && r.key == k
        ensures k in Live(rows) && Live(rows)[k] == r.val
      {
        LastRow(rows, k);
        var at: nat :| IsLast(rows, k, at);
        LastRowDecides(rows, k, at);
        var i :| 0 <= i < |rows| && rows[i] == r;
        assert rows[at] in rows;
      }
    }
    if ShowsOnly(rows, k, Live(rows)) {
      forall i: nat, at: nat | IsLast(rows, k, at) && i <= at && rows[i].key == k && rows[i].op != DELETE &&
                               rows[i].ts == rows[at].ts
        ensures rows[at].op != DELETE && rows[at].val == rows[i].val
      {
        TiedIsVisible(rows, k, i, at);
        LastRowDecides(rows, k, at);
      }
    }
  }

  /** Distinct timestamps of a key are enough. */
  lemma DistinctIsSettled<K, V>(rows: seq<Row<K, V>>, k: K)
    requires forall i, j :: 0 <= i < j < |rows| && rows[i].key == rows[j].key == k ==> rows[i].ts != rows[j].ts
    ensures Settled(rows, k)
  {
  }

  /** Within one tick of the clock, a row that was deleted is still shown, and so is a value that has been
    * replaced. */
  lemma TieShowsOld<K(!new), V(!new)>(k: K, v: V, w: V, ts: int)
    requires v != w
    ensures var deleted := [Row(ts, INSERT, k, v), Row(ts, DELETE, k, v)];
      k !in Live(deleted) && InView(deleted, deleted[0]) && !Settled(deleted, k)
    ensures var replaced := [Row(ts, INSERT, k, v), Row(ts, UPDATE, k, w)];
      Live(replaced) == map[k := w] && InView(replaced, replaced[0]) && !Settled(replaced, k)
  {
    hide Live;
    var r, d, u := Row(ts, INSERT, k, v), Row(ts, DELETE, k, v), Row(ts, UPDATE, k, w);
    LiveAppend([], r);
    assert [r, d] == [r] + [d] && [r, u] == [r] + [u] && [r] == [] + [r];
    LiveAppend([r], d);
    LiveAppend([r], u);
    LiveNone<K, V>();
    assert IsLast([r, d], k, 1) && IsLast([r, u], k, 1);
    assert [r, d][0] == [r, u][0] == r;
  }

  lemma LiveAppend<K, V>(log: seq<Row<K, V>>, r: Row<K, V>)
    ensures Live(log + [r]) == if r.op == DELETE then Live(log) - {r.key} else Live(log)[r.key := r.val]
  {
    assert (log + [r])[..|log|] == log;
  }

  lemma LiveNone<K, V>()
    ensures Live<K, V>([]) == map[]
  {
  }

  // ---------- Logs that grow event by event ----------

  ghost predicate InOrder(times: seq<int>) {
    forall i, j :: 0 <= i < j < |times| ==> times[i] <= times[j]
  }

  /** logs[n] is the log after n events, of which each appends at most one row, with its own time. */
  ghost predicate Grows<K, V>(logs: seq<seq<Row<K, V>>>, times: seq<int>) {
    && |logs| == |times| + 1 && logs[0] == []
    && InOrder(times)
    && forall n :: 0 <= n < |times| ==> GrowsBy(logs[n], logs[n + 1], times[n])
  }

  ghost predicate GrowsBy<K, V>(log: seq<Row<K, V>>, log': seq<Row<K, V>>, ts: int) {
    log' == log || (|log'| == |log| + 1 && log'[..|log|] == log && log'[|log|].ts == ts)
  }

  lemma {:induction false} GrowsInOrder<K, V>(logs: seq<seq<Row<K, V>>>, times: seq<int>, n: nat)
    requires Grows(logs, times) && n <= |times|
    ensures Ordered(logs[n])
    ensures forall i :: 0 <= i < |logs[n]| ==> n > 0 && logs[n][i].ts <= times[n - 1]
    decreases n
  {
    if n > 0 {
      GrowsInOrder(logs, times, n - 1);
      assert GrowsBy(logs[n - 1], logs[n], times[n - 1]);
      var log, log' := logs[n - 1], logs[n];
      forall i | 0 <= i < |log'|
        ensures log'[i].ts <= times[n - 1]
      {
        assert i < |log| ==> log'[i] == log[i] && log[i].ts <= times[n - 2];
      }
      assert forall i :: 0 <= i < |log| ==> log'[i] == log[i];
    }
  }

  /** The n events before the cut-off. */
  ghost predicate CutsAt(times: seq<int>, t: int, n: nat) {
    n <= |times| && forall i :: 0 <= i < |times| ==> (times[i] < t <==> i < n)
  }

  /** The rows before the cut-off are those of the events before it. */
  lemma {:induction false} CutLog<K, V>(logs: seq<seq<Row<K, V>>>, times: seq<int>, t: int, n: nat, m: nat)
    requires Grows(logs, times) && CutsAt(times, t, n) && n <= m <= |times|
    ensures Before(logs[m], t) == logs[n]
    decreases m
  {
    if n == m {
      GrowsInOrder(logs, times, n);
      forall i | 0 <= i < |logs[n]|
        ensures logs[n][i].ts < t
      {
        assert times[n - 1] < t;
      }
      BeforeAll(logs[n], t);
    } else {
      CutLog(logs, times, t, n, m - 1);
      assert GrowsBy(logs[m - 1], logs[m], times[m - 1]);
    }
  }

  /** A log that ends before the cut-off is not shortened. */
  lemma {:induction false} BeforeAll<K, V>(log: seq<Row<K, V>>, t: int)
    requires forall i :: 0 <= i < |log| ==> log[i].ts < t
    ensures Before(log, t) == log
    decreases |log|
  {
    if log != [] {
      BeforeAll(log[..|log| - 1], t);
    }
  }

  // ---------- metadata and xattr ----------

  /** A statement on one row: INSERT or REPLACE, logged as INSERT; UPDATE, logged with the new row; DELETE. The
    * last two do nothing if there is no such row. */
  datatype Statement<K, V> =
    | Put(ts: int, key: K, val: V)
    | Update(ts: int, key: K, val: V)
    | Erase(ts: int, key: K)

  function KeyedStep<K, V>(t: map<K, V>, s: Statement<K, V>): (map<K, V>, seq<Row<K, V>>) {
    match s
    case Put(ts, k, v) => (t[k := v], [Row(ts, INSERT, k, v)])
    case Update(ts, k, v) => if k in t then (t[k := v], [Row(ts, UPDATE, k, v)]) else (t, [])
    case Erase(ts, k) => if k in t then (t - {k}, [Row(ts, DELETE, k, t[k])]) else (t, [])
  }

  /** The table and its log after some statements. */
  function KeyedRun<K, V>(ss: seq<Statement<K, V>>): (map<K, V>, seq<Row<K, V>>) {
    if ss == [] then (map[], [])
    else
      var (t, log) := KeyedRun(ss[..|ss| - 1]);
      var (t', rows) := KeyedStep(t, ss[|ss| - 1]);
      (t', log + rows)
  }

  ghost predicate PutAt<K, V>(ss: seq<Statement<K, V>>, k: K, i: nat)
    requires i < |ss|
  {
    ss[i].Put? && ss[i].key == k && forall j :: i < j < |ss| ==> !(ss[j].Erase? && ss[j].key == k)
  }

  ghost predicate SetAt<K, V>(ss: seq<Statement<K, V>>, k: K, i: nat)
    requires i < |ss|
    ensures SetAt(ss, k, i) ==> !ss[i].Erase?
  {
    !ss[i].Erase? && ss[i].key == k && forall j :: i < j < |ss| ==> ss[j].key != k
  }

  /** What the table holds: a key is there exactly if it has been put and not erased since, and its value is that of
    * the last statement on it. */
  lemma {:induction false} TableExactly<K, V>(ss: seq<Statement<K, V>>, k: K)
    ensures k in KeyedRun(ss).0 <==> exists i: nat :: i < |ss| && PutAt(ss, k, i)
    ensures k in KeyedRun(ss).0 ==> exists i: nat :: i < |ss| && SetAt(ss, k, i) && ss[i].val == KeyedRun(ss).0[k]
    decreases |ss|
  {
    hide KeyedRun, PutAt, SetAt;
    if ss == [] {
      NoStatements<K, V>();
    } else {
      var n := |ss| - 1;
      var init, s := ss[..n], ss[n];
      TableExactly(init, k);
      LastStatement(ss);
      forall i: nat | i < n
        ensures PutAt(ss, k, i) <==> PutAt(init, k, i) && !(s.Erase? && s.key == k)
        ensures SetAt(ss, k, i) <==> SetAt(init, k, i) && s.key != k
        ensures init[i] == ss[i]
      {
        Shorter(ss, k, i);
      }
      AtLast(ss, k);
      if k in KeyedRun(init).0 && s.key != k {
        var i: nat :| i < n && SetAt(init, k, i) && init[i].val == KeyedRun(init).0[k];
        assert SetAt(ss, k, i);
      }
    }
  }

  lemma NoStatements<K, V>()
    ensures KeyedRun<K, V>([]) == (map[], [])
  {
  }

  lemma LastStatement<K, V>(ss: seq<Statement<K, V>>)
    requires ss != []
    ensures KeyedRun(ss).0 == KeyedStep(KeyedRun(ss[..|ss| - 1]).0, ss[|ss| - 1]).0
  {
  }

  lemma Shorter<K, V>(ss: seq<Statement<K, V>>, k: K, i: nat)
    requires i < |ss| - 1
    ensures var init, s := ss[..|ss| - 1], ss[|ss| - 1];
      && (PutAt(ss, k, i) <==> PutAt(init, k, i) && !(s.Erase? && s.key == k))
      && (SetAt(ss, k, i) <==> SetAt(init, k, i) && s.key != k)
  {
  }

  lemma AtLast<K, V>(ss: seq<Statement<K, V>>, k: K)
    requires ss != []
    ensures var s := ss[|ss| - 1];
      && (PutAt(ss, k, |ss| - 1) <==> s.Put? && s.key == k)
      && (SetAt(ss, k, |ss| - 1) <==> !s.Erase? && s.key == k)
  {
  }

  /** The triggers keep the log a description of the table. */
  lemma {:induction false} LogDescribesTable<K, V>(ss: seq<Statement<K, V>>)
    ensures Live(KeyedRun(ss).1) == KeyedRun(ss).0
    decreases |ss|
  {
    hide Live;
    LiveNone<K, V>();
    if ss != [] {
      var (t, log) := KeyedRun(ss[..|ss| - 1]);
      var (t', rows) := KeyedStep(t, ss[|ss| - 1]);
      LogDescribesTable(ss[..|ss| - 1]);
      if rows == [] {
        assert log + rows == log;
      } else {
        LiveAppend(log, rows[0]);
      }
    }
  }

  function StatementTimes<K, V>(ss: seq<Statement<K, V>>): seq<int> {
    seq(|ss|, i requires 0 <= i < |ss| => ss[i].ts)
  }

  function KeyedLogs<K(==), V>(ss: seq<Statement<K, V>>): seq<seq<Row<K, V>>> {
    seq(|ss| + 1, n requires 0 <= n <= |ss| => KeyedRun(ss[..n]).1)
  }

  lemma KeyedGrows<K, V>(ss: seq<Statement<K, V>>)
    requires InOrder(StatementTimes(ss))
    ensures Grows(KeyedLogs(ss), StatementTimes(ss))
  {
    forall n | 0 <= n < |ss|
      ensures GrowsBy(KeyedLogs(ss)[n], KeyedLogs(ss)[n + 1], ss[n].ts)
    {
      assert ss[..n + 1][..n] == ss[..n];
    }
  }

  /** tmetadata and txattr compared with the table itself at the cut-off, key by key: its entry is shown, and
    * nothing else is exactly when the rows that tie with the last one of the key agree with it. */
  lemma ViewIsTable<K(!new), V(!new)>(ss: seq<Statement<K, V>>, t: int, n: nat, k: K)
    requires InOrder(StatementTimes(ss)) && CutsAt(StatementTimes(ss), t, n)
    ensures var rows, table := Before(KeyedRun(ss).1, t), KeyedRun(ss[..n]).0;
      && rows == KeyedRun(ss[..n]).1
      && Shows(rows, k, table)
      && (ShowsOnly(rows, k, table) <==> Settled(rows, k))
  {
    hide KeyedRun, Grows, Shows, ShowsOnly, Settled, Live, Before, InOrder, CutsAt, Ordered;
    var logs, times := KeyedLogs(ss), StatementTimes(ss);
    KeyedGrows(ss);
    AtMost(times, t, n);
    assert ss[..|ss|] == ss;
    CutLog(logs, times, t, n, |ss|);
    GrowsInOrder(logs, times, n);
    LogDescribesTable(ss[..n]);
    LiveIsVisible(logs[n], k);
    VisibleIsLive(logs[n], k);
  }

  lemma AtMost(times: seq<int>, t: int, n: nat)
    requires CutsAt(times, t, n)
    ensures n <= |times|
  {
  }

  // ---------- dentry, whose primary key an update can change ----------

  /** The columns tdentry is grouped by. */
  datatype Edge = Edge(parent: nat, child: nat, name: string)

  /** A statement on one row of dentry. A slot that is taken makes INSERT and UPDATE fail. */
  datatype Change =
    | Add(slot: Slot, entry: Entry)
    | Remove(slot: Slot)
    | Rekey(slot: Slot, newSlot: Slot, entry: Entry)

  datatype Event = Event(ts: int, change: Change)

  function EdgeOf(s: Slot, e: Entry): Edge {
    Edge(s.parent, e.child, s.name)
  }

  ghost predicate HasEdge(t: map<Slot, Entry>, g: Edge) {
    Slot(g.parent, g.name) in t && t[Slot(g.parent, g.name)].child == g.child
  }

  /** The edges of the live entries, with their types. */
  ghost function Edges(t: map<Slot, Entry>): map<Edge, Kind> {
    map s | s in t :: EdgeOf(s, t[s]) := t[s].kind
  }

  /** The table after a statement, and the rows the trigger logs: an update logs only the new row. */
  function DentryStep(t: map<Slot, Entry>, ev: Event): (map<Slot, Entry>, seq<Row<Edge, Kind>>) {
    match ev.change
    case Add(s, e) => if s in t then (t, []) else (t[s := e], [Row(ev.ts, INSERT, EdgeOf(s, e), e.kind)])
    case Remove(s) => if s in t then (t - {s}, [Row(ev.ts, DELETE, EdgeOf(s, t[s]), t[s].kind)]) else (t, [])
    case Rekey(s, s', e) =>
      if s !in t || (s' != s && s' in t) then (t, [])
      else ((t - {s})[s' := e], [Row(ev.ts, UPDATE, EdgeOf(s', e), e.kind)])
  }

  /** The dentry table and its log after some events. */
  function DentryRun(events: seq<Event>): (map<Slot, Entry>, seq<Row<Edge, Kind>>) {
    if events == [] then (map[], [])
    else
      var (t, log) := DentryRun(events[..|events| - 1]);
      var (t', rows) := DentryStep(t, events[|events| - 1]);
      (t', log + rows)
  }

  /** The edge that an update takes from the table without logging it. */
  function Left(t: map<Slot, Entry>, c: Change): set<Edge> {
    if c.Rekey? && c.slot in t then {EdgeOf(c.slot, t[c.slot])} else {}
  }

  /** The edges that an update has changed and that no row has been logged for since. */
  function Stale(events: seq<Event>): set<Edge> {
    if events == [] then {}
    else
      var init, ev := events[..|events| - 1], events[|events| - 1];
      var rows := DentryStep(DentryRun(init).0, ev).1;
      if rows == [] then Stale(init) else Stale(init) + Left(DentryRun(init).0, ev.change) - {rows[0].key}
  }

  /** The rows that event i logs, and the edges it takes from the table without logging them. */
  function LoggedBy(events: seq<Event>, i: nat): seq<Row<Edge, Kind>>
    requires i < |events|
  {
    DentryStep(DentryRun(events[..i]).0, events[i]).1
  }

  ghost predicate LeftFrom(events: seq<Event>, g: Edge, i: nat)
    requires i < |events|
  {
    && LoggedBy(events, i) != [] && g in Left(DentryRun(events[..i]).0, events[i].change)
    && forall j :: i <= j < |events| && LoggedBy(events, j) != [] ==> LoggedBy(events, j)[0].key != g
  }

  /** Stale edges, seen from the whole history: some update has changed the edge, and neither that event nor any
    * later one has logged a row for it. */
  lemma {:induction false} StaleSince(events: seq<Event>, g: Edge)
    ensures g in Stale(events) <==> exists i: nat :: i < |events| && LeftFrom(events, g, i)
    decreases |events|
  {
    hide DentryStep, DentryRun, Left;
    if events != [] {
      var n := |events| - 1;
      var init := events[..n];
      StaleSince(init, g);
      forall i | 0 <= i < n
        ensures LoggedBy(init, i) == LoggedBy(events, i) && init[..i] == events[..i]
      {
        assert init[..i] == events[..i];
      }
      var here := LoggedBy(events, n);
      assert LeftFrom(events, g, n)
        <==> here != [] && g in Left(DentryRun(init).0, events[n].change) && here[0].key != g;
      if i: nat :| i < n && LeftFrom(init, g, i) && (here == [] || here[0].key != g) {
        assert LeftFrom(events, g, i);
      }
      if i: nat :| i < n && LeftFrom(events, g, i) {
        assert LeftFrom(init, g, i);
      }
    }
  }

  /** What the log says about the edges: the live ones as they are, and stale ones besides. */
  ghost predicate Describes(live: map<Edge, Kind>, t: map<Slot, Entry>, stale: set<Edge>) {
    && (forall g :: g in live <==> HasEdge(t, g) || g in stale)
    && (forall g :: HasEdge(t, g) ==> g !in stale && live[g] == t[Slot(g.parent, g.name)].kind)
  }

  lemma DescribesStep(live: map<Edge, Kind>, t: map<Slot, Entry>, stale: set<Edge>, ev: Event)
    requires Describes(live, t, stale)
    ensures var (t', rows) := DentryStep(t, ev);
      if rows == [] then t' == t
      else
        var r := rows[0];
        |rows| == 1 && Describes(if r.op == DELETE then live - {r.key} else live[r.key := r.val], t',
                                 stale + Left(t, ev.change) - {r.key})
  {
  }

  lemma {:induction false} LogDescribesEdges(events: seq<Event>)
    ensures Describes(Live(DentryRun(events).1), DentryRun(events).0, Stale(events))
    decreases |events|
  {
    hide Live, Describes, Left, DentryStep;
    if events == [] {
      NothingDescribed();
    } else {
      var init, ev := events[..|events| - 1], events[|events| - 1];
      LogDescribesEdges(init);
      var (t, log) := DentryRun(init);
      var (t', rows) := DentryStep(t, ev);
      DescribesStep(Live(log), t, Stale(init), ev);
      if rows == [] {
        assert log + rows == log;
      } else {
        assert rows == [rows[0]];
        LiveAppend(log, rows[0]);
      }
    }
  }

  lemma NothingDescribed()
    ensures Describes(Live([]), map[], {})
  {
  }

  function EventTimes(events: seq<Event>): seq<int> {
    seq(|events|, i requires 0 <= i < |events| => events[i].ts)
  }

  function DentryLogs(events: seq<Event>): seq<seq<Row<Edge, Kind>>> {
    seq(|events| + 1, n requires 0 <= n <= |events| => DentryRun(events[..n]).1)
  }

  lemma DentryGrows(events: seq<Event>)
    requires InOrder(EventTimes(events))
    ensures Grows(DentryLogs(events), EventTimes(events))
  {
    forall n | 0 <= n < |events|
      ensures GrowsBy(DentryLogs(events)[n], DentryLogs(events)[n + 1], events[n].ts)
    {
      assert events[..n + 1][..n] == events[..n];
    }
  }

  lemma LogAtCut(events: seq<Event>, t: int, n: nat)
    requires InOrder(EventTimes(events)) && CutsAt(EventTimes(events), t, n)
    ensures n <= |events| && Before(DentryRun(events).1, t) == DentryRun(events[..n]).1
    ensures Ordered(DentryRun(events[..n]).1)
  {
    hide DentryRun, Grows, Before, InOrder, CutsAt, Ordered;
    var logs, times := DentryLogs(events), EventTimes(events);
    DentryGrows(events);
    AtMost(times, t, n);
    assert events[..|events|] == events;
    CutLog(logs, times, t, n, |events|);
    GrowsInOrder(logs, times, n);
  }

  lemma EdgesAre(t: map<Slot, Entry>, g: Edge)
    ensures g in Edges(t) <==> HasEdge(t, g)
    ensures HasEdge(t, g) ==> Edges(t)[g] == t[Slot(g.parent, g.name)].kind
  {
    var m := Edges(t);
    if g in m {
      var s :| s in t && EdgeOf(s, t[s]) == g;
      assert s == Slot(g.parent, g.name);
    }
    if HasEdge(t, g) {
      var s := Slot(g.parent, g.name);
      assert s in t && EdgeOf(s, t[s]) == g;
    }
  }

  /** tdentry compared with the table itself at the cut-off, edge by edge: a live entry is shown, and nothing
    * else is exactly when the edge is not stale and the rows that tie with its last one agree with it. */
  lemma EntriesInView(events: seq<Event>, t: int, n: nat, g: Edge)
    requires InOrder(EventTimes(events)) && CutsAt(EventTimes(events), t, n)
    ensures n <= |events|
    ensures var rows, edges := Before(DentryRun(events).1, t), Edges(DentryRun(events[..n]).0);
      && Shows(rows, g, edges)
      && (ShowsOnly(rows, g, edges) <==> Settled(rows, g) && g !in Stale(events[..n]))
  {
    hide DentryRun, Live, Before, InOrder, CutsAt, Ordered, Settled, InView, HasEdge, Stale, Edges;
    LogAtCut(events, t, n);
    var rows, table := DentryRun(events[..n]).1, DentryRun(events[..n]).0;
    LogDescribesEdges(events[..n]);
    EdgesAre(table, g);
    LiveIsVisible(rows, g);
    VisibleIsLive(rows, g);
  }

  /** A rename makes the old edge stale, and so does moving a directory, whose '..' gets another child. */
  lemma RenameLeavesStale(events: seq<Event>, ts: int, s: Slot, s': Slot, e': Entry)
    requires var t := DentryRun(events).0;
      s in t && (s' == s || s' !in t) && EdgeOf(s', e') != EdgeOf(s, t[s])
    ensures EdgeOf(s, DentryRun(events).0[s]) in Stale(events + [Event(ts, Rekey(s, s', e'))])
  {
    var ev := Event(ts, Rekey(s, s', e'));
    assert (events + [ev])[..|events|] == events;
  }
}
