/** The rows of `lets peers who`: one per session of this repository, orchestrators first. */
module Who {
  import opened Option
  import opened Registry
  import SemVer

  /** An `orchestrator:` line of the merge branch's task state. */
  datatype Record = Record(name: string, scope: string, standing: bool)

  datatype Row = Row(
    session: string, name: string, cwd: string, duplicate: bool,
    orchestrator: bool, scope: string, standing: bool, branch: string, orc: Option<string>)

  /** What the rows are built from. `bindings`: the valid `orc:` name of each branch that has one.
      `branchOf`: the branch checked out in a directory. `convention`: the scope a name of the form
      `<repo>-orc[-scope]` stands for. */
  datatype World = World(
    snap: Snapshot, recs: seq<Record>, merge: string, bindings: map<string, string>,
    branchOf: string -> string, convention: string -> Option<string>)

  /** The binding of a branch; the merge branch has none. */
  function Bound(w: World, branch: string): Option<string> {
    if branch != w.merge && branch in w.bindings then Some(w.bindings[branch]) else None
  }

  /** The first record of a name. */
  function RecordOf(recs: seq<Record>, name: string): Option<Record> {
    if recs == [] then None
    else
      var first := RecordOf(recs[..|recs| - 1], name);
      var last := recs[|recs| - 1];
      if first.Some? then first else if last.name == name then Some(last) else None
  }

  predicate FirstRecordOf(recs: seq<Record>, name: string, i: nat) {
    i < |recs| && recs[i].name == name && forall j :: 0 <= j < i ==> recs[j].name != name
  }

  lemma {:induction false} RecordOfExactly(recs: seq<Record>, name: string)
    ensures RecordOf(recs, name) == None <==> forall i :: 0 <= i < |recs| ==> recs[i].name != name
    ensures forall i: nat :: FirstRecordOf(recs, name, i) ==> RecordOf(recs, name) == Some(recs[i])
    ensures RecordOf(recs, name).Some? ==> exists i: nat :: FirstRecordOf(recs, name, i)
  {
    if recs != [] {
      var front, n := recs[..|recs| - 1], |recs| - 1;
      RecordOfExactly(front, name);
      assert recs == front + [recs[n]];
      forall i: nat
        ensures i < n ==> (FirstRecordOf(recs, name, i) <==> FirstRecordOf(front, name, i))
      {
        assert forall j :: 0 <= j < n ==> front[j] == recs[j];
      }
      if RecordOf(front, name).Some? {
        var i: nat :| FirstRecordOf(front, name, i);
        assert FirstRecordOf(recs, name, i);
      } else if recs[n].name == name {
        assert FirstRecordOf(recs, name, n);
      }
    }
  }

  ghost function SessionsOf(named: seq<Entry>): set<string> {
    set e | e in named :: e.session
  }

  ghost function PidsOf(named: seq<Entry>): set<nat> {
    set e | e in named :: e.pid
  }

  /** A pid one of whose entries is an address of its name. */
  ghost predicate IsAddress(s: Snapshot, pid: nat) {
    exists name :: CarriedBy(s, name) && pid in PidsOf(NamedOf(s, name))
  }

  ghost predicate CarriedBy(s: Snapshot, name: string) {
    exists e :: e in s.entries && e.nameOK && e.name == name
  }

  /** A parked entry that its continuation stands for. */
  ghost predicate Collapsed(s: Snapshot, e: Entry) {
    e.nameOK && !IsAddress(s, e.pid)
  }

  /** The `k`th entry is the one that stands for its session. */
  ghost predicate Stands(s: Snapshot, entries: seq<Entry>, k: nat) {
    && k < |entries| && !Collapsed(s, entries[k])
    && forall j :: 0 <= j < k && entries[j].session == entries[k].session ==> Collapsed(s, entries[j])
  }

  ghost function Base(w: World, e: Entry): Row {
    var r := RecordOf(w.recs, e.name);
    var recorded := e.nameOK && r.Some?;
    var branch := w.branchOf(e.cwd);
    Row(e.session, if e.nameOK then e.name else "", e.cwd,
        e.nameOK && |SessionsOf(NamedOf(w.snap, e.name))| > 1,
        recorded, if recorded then r.value.scope else "", recorded && r.value.standing,
        branch, Bound(w, branch))
  }

  /** Two live sessions carry the name. */
  ghost predicate Carried(s: Snapshot, name: string) {
    exists e, f :: e in NamedOf(s, name) && f in NamedOf(s, name) && e.session != f.session
  }

  lemma TwoSessions(named: seq<Entry>)
    ensures |SessionsOf(named)| > 1 <==> exists e, f :: e in named && f in named && e.session != f.session
  {
    var sessions := SessionsOf(named);
    if e, f :| e in named && f in named && e.session != f.session {
      assert {e.session, f.session} <= sessions;
      Subset({e.session, f.session}, sessions);
      assert |{e.session, f.session}| == 2;
    } else if sessions != {} {
      var one :| one in sessions;
      forall other | other in sessions
        ensures other == one
      {
      }
      assert sessions == {one};
    }
  }

  /** What a row shows of its entry: the name when it can be addressed, whether another live session carries it, the
      first record of that name, and the binding of the branch checked out there, which the merge branch has not. */
  lemma BaseExactly(w: World, e: Entry)
    ensures var row := Base(w, e);
            var branch := w.branchOf(e.cwd);
            && row.session == e.session && row.cwd == e.cwd && row.branch == branch
            && (e.nameOK ==> row.name == e.name) && (!e.nameOK ==> row.name == "" && !row.orchestrator)
            && (row.duplicate <==> e.nameOK && Carried(w.snap, e.name))
            && (row.orchestrator <==> e.nameOK && exists i: nat :: FirstRecordOf(w.recs, e.name, i))
            && (row.orchestrator ==>
                  exists i: nat :: FirstRecordOf(w.recs, e.name, i)
                                   && row.scope == w.recs[i].scope && row.standing == w.recs[i].standing)
            && (!row.orchestrator ==> row.scope == "" && !row.standing)
            && row.orc == if branch != w.merge && branch in w.bindings then Some(w.bindings[branch]) else None
  {
    TwoSessions(NamedOf(w.snap, e.name));
    RecordOfExactly(w.recs, e.name);
  }

  /** The convention touches only a row it names, while no recorded name is live: that becomes an orchestrator of that
      scope, and keeps all else. */
  lemma ConventionExactly(w: World, live: bool, r: Row)
    ensures var shown := ByConvention(w, live, r);
            && shown == r.(orchestrator := shown.orchestrator, scope := shown.scope)
            && (live || r.name == "" || w.convention(r.name) == None ==> shown == r)
            && (!live && r.name != "" && w.convention(r.name).Some? ==>
                  shown.orchestrator && shown.scope == w.convention(r.name).value)
  {
  }

  /** The naming convention makes an orchestrator only while no recorded name is live. */
  function ByConvention(w: World, live: bool, r: Row): Row {
    if !live && r.name != "" && w.convention(r.name).Some?
    then r.(orchestrator := true, scope := w.convention(r.name).value)
    else r
  }

  ghost predicate RecordedLive(w: World, entries: seq<Entry>) {
    exists k: nat :: Stands(w.snap, entries, k) && entries[k].nameOK && RecordOf(w.recs, entries[k].name).Some?
  }

  ghost function Shown(w: World, entries: seq<Entry>, e: Entry): Row {
    ByConvention(w, RecordedLive(w, entries), Base(w, e))
  }

  // ---------------------------------------------------------------------------------------
  // Addresses and records
  // ---------------------------------------------------------------------------------------

  method Collect(named: seq<Entry>) returns (sessions: set<string>, pids: set<nat>)
    ensures sessions == SessionsOf(named) && pids == PidsOf(named)
  {
    sessions, pids := {}, {};
    for i := 0 to |named|
      invariant sessions == SessionsOf(named[..i]) && pids == PidsOf(named[..i])
    {
      assert named[..i + 1] == named[..i] + [named[i]];
      sessions, pids := sessions + {named[i].session}, pids + {named[i].pid};
    }
    assert named[..|named|] == named;
  }

  method Addresses(s: Snapshot) returns (sessionsOf: map<string, set<string>>, address: set<nat>)
    ensures forall pid :: pid in address <==> IsAddress(s, pid)
    ensures forall e :: e in s.entries && e.nameOK ==> e.name in sessionsOf
    ensures forall name :: name in sessionsOf ==> sessionsOf[name] == SessionsOf(NamedOf(s, name))
  {
    sessionsOf, address := map[], {};
    for i := 0 to |s.entries|
      invariant forall j :: 0 <= j < i && s.entries[j].nameOK ==> s.entries[j].name in sessionsOf
      invariant forall name :: name in sessionsOf ==>
                  CarriedBy(s, name) && sessionsOf[name] == SessionsOf(NamedOf(s, name))
      invariant forall pid :: pid in address <==> exists name :: name in sessionsOf && pid in PidsOf(NamedOf(s, name))
    {
      var e := s.entries[i];
      if e.nameOK && e.name !in sessionsOf {
        var named := Named(s, e.name);
        var sessions, pids := Collect(named);
        sessionsOf, address := sessionsOf[e.name := sessions], address + pids;
      }
    }
  }

  method FirstRecords(recs: seq<Record>) returns (record: map<string, Record>)
    ensures forall name :: name in record <==> RecordOf(recs, name).Some?
    ensures forall name :: name in record ==> RecordOf(recs, name) == Some(record[name])
  {
    record := map[];
    for i := 0 to |recs|
      invariant forall name :: name in record <==> RecordOf(recs[..i], name).Some?
      invariant forall name :: name in record ==> RecordOf(recs[..i], name) == Some(record[name])
    {
      assert recs[..i + 1][..i] == recs[..i];
      if recs[i].name !in record { record := record[recs[i].name := recs[i]]; }
    }
    assert recs[..|recs|] == recs;
  }

  // ---------------------------------------------------------------------------------------
  // One row per session
  // ---------------------------------------------------------------------------------------

  /** The rows of the first `n` entries, before the convention and the order. */
  ghost function RowsOf(w: World, entries: seq<Entry>, n: nat): seq<Row>
    requires n <= |entries|
  {
    if n == 0 then []
    else RowsOf(w, entries, n - 1) + if Stands(w.snap, entries, n - 1) then [Base(w, entries[n - 1])] else []
  }

  /** The pid of the entry each row was built from. */
  ghost function PidsBySession(s: Snapshot, entries: seq<Entry>, n: nat): map<string, nat>
    requires n <= |entries|
  {
    if n == 0 then map[]
    else
      var before := PidsBySession(s, entries, n - 1);
      if Stands(s, entries, n - 1) then before[entries[n - 1].session := entries[n - 1].pid] else before
  }

  ghost predicate Seen(s: Snapshot, entries: seq<Entry>, n: nat, session: string)
    requires n <= |entries|
  {
    exists j: nat :: j < n && entries[j].session == session && !Collapsed(s, entries[j])
  }

  lemma {:induction false} SeenExactly(s: Snapshot, entries: seq<Entry>, n: nat, session: string)
    requires n <= |entries|
    ensures session in PidsBySession(s, entries, n) <==> Seen(s, entries, n, session)
  {
    if n > 0 {
      SeenExactly(s, entries, n - 1, session);
      if Seen(s, entries, n, session) && !Seen(s, entries, n - 1, session) {
        assert Stands(s, entries, n - 1);
      }
    }
  }

  /** What the loop checks: a session not seen yet, and an entry that is not collapsed. */
  lemma StandsExactly(s: Snapshot, entries: seq<Entry>, i: nat)
    requires i < |entries|
    ensures Stands(s, entries, i) <==> entries[i].session !in PidsBySession(s, entries, i) && !Collapsed(s, entries[i])
  {
    SeenExactly(s, entries, i, entries[i].session);
  }

  lemma {:induction false} PidExactly(s: Snapshot, entries: seq<Entry>, n: nat, k: nat)
    requires k < n <= |entries| && Stands(s, entries, k)
    ensures entries[k].session in PidsBySession(s, entries, n)
    ensures PidsBySession(s, entries, n)[entries[k].session] == entries[k].pid
  {
    if k < n - 1 {
      PidExactly(s, entries, n - 1, k);
      assert Stands(s, entries, n - 1) ==> entries[n - 1].session != entries[k].session;
    }
  }

  ghost predicate BaseOf(w: World, entries: seq<Entry>, k: nat, r: Row) {
    Stands(w.snap, entries, k) && r == Base(w, entries[k])
  }

  lemma {:induction false} RowsExactly(w: World, entries: seq<Entry>, n: nat, r: Row)
    requires n <= |entries|
    ensures r in RowsOf(w, entries, n) <==> exists k: nat :: k < n && BaseOf(w, entries, k, r)
  {
    if n > 0 {
      RowsExactly(w, entries, n - 1, r);
      var before := RowsOf(w, entries, n - 1);
      if BaseOf(w, entries, n - 1, r) {
        assert RowsOf(w, entries, n) == before + [r];
      } else if Stands(w.snap, entries, n - 1) {
        assert RowsOf(w, entries, n) == before + [Base(w, entries[n - 1])];
      }
    }
  }

  /** What the row builder looks names up in. */
  ghost predicate Tables(w: World, sessionsOf: map<string, set<string>>, address: set<nat>,
                         record: map<string, Record>)
  {
    && (forall pid :: pid in address <==> IsAddress(w.snap, pid))
    && (forall e :: e in w.snap.entries && e.nameOK ==> e.name in sessionsOf)
    && (forall name :: name in sessionsOf ==> sessionsOf[name] == SessionsOf(NamedOf(w.snap, name)))
    && (forall name :: name in record <==> RecordOf(w.recs, name).Some?)
    && forall name :: name in record ==> RecordOf(w.recs, name) == Some(record[name])
  }

  method BuildRow(w: World, e: Entry, sessionsOf: map<string, set<string>>, ghost address: set<nat>,
                  record: map<string, Record>)
    returns (p: Row)
    requires Tables(w, sessionsOf, address, record) && e in w.snap.entries
    ensures p == Base(w, e)
  {
    var branch := w.branchOf(e.cwd);
    p := Row(e.session, "", e.cwd, false, false, "", false, branch, Bound(w, branch));
    if e.nameOK {
      p := p.(name := e.name, duplicate := |sessionsOf[e.name]| > 1);
      if e.name in record {
        var r := record[e.name];
        p := p.(orchestrator := true, scope := r.scope, standing := r.standing);
      }
    }
  }

  /** The check at the head of the loop. */
  method StandsFor(s: Snapshot, entries: seq<Entry>, i: nat, pids: map<string, nat>, address: set<nat>)
    returns (stands: bool)
    requires i < |entries| && pids == PidsBySession(s, entries, i)
    requires forall pid :: pid in address <==> IsAddress(s, pid)
    ensures stands <==> Stands(s, entries, i)
  {
    var e := entries[i];
    StandsExactly(s, entries, i);
    return !(e.session in pids || (e.nameOK && e.pid !in address));
  }

  predicate AnyOrchestrator(rows: seq<Row>) {
    exists r :: r in rows && r.orchestrator
  }

  lemma AnyOfOneMore(rows: seq<Row>, r: Row)
    ensures AnyOrchestrator(rows + [r]) <==> AnyOrchestrator(rows) || r.orchestrator
  {
    assert r.orchestrator ==> r in rows + [r];
    if AnyOrchestrator(rows) {
      var x :| x in rows && x.orchestrator;
      assert x in rows + [r];
    }
  }

  /** Before the convention, a row is an orchestrator by its record. */
  lemma RecordedExactly(w: World, entries: seq<Entry>)
    ensures AnyOrchestrator(RowsOf(w, entries, |entries|)) <==> RecordedLive(w, entries)
  {
    var rows := RowsOf(w, entries, |entries|);
    if AnyOrchestrator(rows) {
      var r :| r in rows && r.orchestrator;
      RowsExactly(w, entries, |entries|, r);
    }
    if RecordedLive(w, entries) {
      var k: nat :| Stands(w.snap, entries, k) && entries[k].nameOK && RecordOf(w.recs, entries[k].name).Some?;
      RowsExactly(w, entries, |entries|, Base(w, entries[k]));
      assert BaseOf(w, entries, k, Base(w, entries[k]));
    }
  }

  /** The loop of `whoRows`. */
  method BuildRows(w: World, entries: seq<Entry>, sessionsOf: map<string, set<string>>, address: set<nat>,
                   record: map<string, Record>)
    returns (rows: seq<Row>, pids: map<string, nat>, live: bool)
    requires forall e :: e in entries ==> e in w.snap.entries
    requires Tables(w, sessionsOf, address, record)
    ensures rows == RowsOf(w, entries, |entries|) && pids == PidsBySession(w.snap, entries, |entries|)
    ensures live <==> RecordedLive(w, entries)
  {
    rows, pids, live := [], map[], false;
    for i := 0 to |entries|
      invariant rows == RowsOf(w, entries, i) && pids == PidsBySession(w.snap, entries, i)
      invariant live <==> AnyOrchestrator(rows)
    {
      var e := entries[i];
      var stands := StandsFor(w.snap, entries, i, pids, address);
      if !stands { continue; }
      var p := BuildRow(w, e, sessionsOf, address, record);
      AnyOfOneMore(rows, p);
      rows, pids := rows + [p], pids[e.session := e.pid];
      if p.orchestrator { live := true; }
    }
    RecordedExactly(w, entries);
  }

  // ---------------------------------------------------------------------------------------
  // The convention and the order
  // ---------------------------------------------------------------------------------------

  method ApplyConvention(w: World, live: bool, rows: seq<Row>) returns (out: seq<Row>)
    ensures |out| == |rows|
    ensures forall i :: 0 <= i < |rows| ==> out[i] == ByConvention(w, live, rows[i])
  {
    out := rows;
    if live { return; }
    for i := 0 to |rows|
      invariant |out| == |rows|
      invariant forall j :: 0 <= j < i ==> out[j] == ByConvention(w, live, rows[j])
      invariant forall j :: i <= j < |rows| ==> out[j] == rows[j]
    {
      var scope := w.convention(out[i].name);
      if scope.Some? && out[i].name != "" {
        out := out[i := out[i].(orchestrator := true, scope := scope.value)];
      }
    }
  }

  /** Orchestrators first, then by name. */
  predicate Less(a: Row, b: Row) {
    if a.orchestrator != b.orchestrator then a.orchestrator else SemVer.CompareText(a.name, b.name) < 0
  }

  /** In the order of the rows orchestrators come first; of two that are both or neither, the one whose name is not
      greater; of equal names, the one listed first. */
  lemma OrderExactly(rows: seq<Row>, pos: string -> nat, i: nat, j: nat)
    requires Ordered(rows, pos) && i < j < |rows|
    ensures rows[j].orchestrator ==> rows[i].orchestrator
    ensures rows[i].orchestrator == rows[j].orchestrator ==>
              SemVer.CompareText(rows[j].name, rows[i].name) >= 0
              && (rows[i].name == rows[j].name ==> pos(rows[i].session) < pos(rows[j].session))
  {
    assert InOrder(rows[i], rows[j], pos);
    SemVer.TextOrder(rows[i].name, rows[j].name, rows[i].name);
  }

  lemma LessThrough(x: Row, a: Row, b: Row)
    requires !Less(b, a) && Less(x, a)
    ensures Less(x, b)
  {
    SemVer.TextOrder(x.name, a.name, b.name);
    SemVer.TextOrder(b.name, a.name, b.name);
    SemVer.TextOrder(a.name, b.name, x.name);
    SemVer.TextOrder(b.name, x.name, a.name);
  }

  /** Rows with equal keys stay in the order of their entries. */
  ghost predicate InOrder(a: Row, b: Row, pos: string -> nat) {
    !Less(b, a) && (Less(a, b) || pos(a.session) < pos(b.session))
  }

  ghost predicate Ordered(rows: seq<Row>, pos: string -> nat) {
    forall i, j :: 0 <= i < j < |rows| ==> InOrder(rows[i], rows[j], pos)
  }

  ghost predicate Rising(rows: seq<Row>, pos: string -> nat) {
    forall i, j :: 0 <= i < j < |rows| ==> pos(rows[i].session) < pos(rows[j].session)
  }

  ghost predicate OneEach(rows: seq<Row>) {
    forall i, j :: 0 <= i < j < |rows| ==> rows[i].session != rows[j].session
  }

  /** One insertion: behind every row that is not greater. */
  method Insert(sorted: seq<Row>, x: Row, ghost pos: string -> nat) returns (out: seq<Row>)
    requires Ordered(sorted, pos) && OneEach(sorted)
    requires forall r :: r in sorted ==> pos(r.session) < pos(x.session)
    ensures Ordered(out, pos) && OneEach(out)
    ensures |out| == |sorted| + 1 && forall r :: r in out <==> r in sorted || r == x
  {
    var k := |sorted|;
    while k > 0 && Less(x, sorted[k - 1])
      invariant 0 <= k <= |sorted|
      invariant forall j :: k <= j < |sorted| ==> Less(x, sorted[j])
    {
      k := k - 1;
    }
    if k > 0 {
      Behind(sorted, x, k, pos);
    }
    out := sorted[..k] + [x] + sorted[k..];
    Placed(sorted, x, k, pos);
  }

  lemma Behind(sorted: seq<Row>, x: Row, k: nat, pos: string -> nat)
    requires Ordered(sorted, pos) && 0 < k <= |sorted| && !Less(x, sorted[k - 1])
    ensures forall i :: 0 <= i < k ==> !Less(x, sorted[i])
  {
    forall i | 0 <= i < k
      ensures !Less(x, sorted[i])
    {
      if Less(x, sorted[i]) && i < k - 1 {
        LessThrough(x, sorted[i], sorted[k - 1]);
      }
    }
  }

  lemma Placed(sorted: seq<Row>, x: Row, k: nat, pos: string -> nat)
    requires Ordered(sorted, pos) && OneEach(sorted) && k <= |sorted|
    requires forall r :: r in sorted ==> pos(r.session) < pos(x.session)
    requires forall i :: 0 <= i < k ==> !Less(x, sorted[i])
    requires forall j :: k <= j < |sorted| ==> Less(x, sorted[j])
    ensures var out := sorted[..k] + [x] + sorted[k..];
            Ordered(out, pos) && OneEach(out) && forall r :: r in out <==> r in sorted || r == x
  {
    var out := sorted[..k] + [x] + sorted[k..];
    forall i, j | 0 <= i < j < |out|
      ensures InOrder(out[i], out[j], pos) && out[i].session != out[j].session
    {
      PairPlaced(sorted, x, k, pos, i, j);
    }
    assert sorted == sorted[..k] + sorted[k..];
  }

  lemma PairPlaced(sorted: seq<Row>, x: Row, k: nat, pos: string -> nat, i: nat, j: nat)
    requires Ordered(sorted, pos) && OneEach(sorted) && k <= |sorted| && i < j <= |sorted|
    requires forall r :: r in sorted ==> pos(r.session) < pos(x.session)
    requires forall i :: 0 <= i < k ==> !Less(x, sorted[i])
    requires forall j :: k <= j < |sorted| ==> Less(x, sorted[j])
    ensures var out := sorted[..k] + [x] + sorted[k..];
            InOrder(out[i], out[j], pos) && out[i].session != out[j].session
  {
    var out := sorted[..k] + [x] + sorted[k..];
    var a := if i <= k then i else i - 1;
    var b := if j < k then j else j - 1;
    if i == k {
      assert out[i] == x && out[j] == sorted[b] && sorted[b] in sorted;
      LessIsStrict(x, sorted[b]);
    } else if j == k {
      assert out[j] == x && out[i] == sorted[a] && sorted[a] in sorted;
    } else {
      assert out[i] == sorted[a] && out[j] == sorted[b];
    }
  }

  lemma LessIsStrict(a: Row, b: Row)
    requires Less(a, b)
    ensures !Less(b, a)
  {
    SemVer.TextOrder(a.name, b.name, a.name);
  }

  /** The stable sort of the rows; only its contract matters here. */
  method SortStable(rows: seq<Row>, ghost pos: string -> nat) returns (out: seq<Row>)
    requires Rising(rows, pos)
    ensures Ordered(out, pos) && OneEach(out)
    ensures |out| == |rows| && forall r :: r in out <==> r in rows
  {
    out := [];
    for i := 0 to |rows|
      invariant Ordered(out, pos) && OneEach(out)
      invariant |out| == i && forall r :: r in out <==> r in rows[..i]
    {
      assert rows[..i + 1] == rows[..i] + [rows[i]];
      out := Insert(out, rows[i], pos);
    }
    assert rows[..|rows|] == rows;
  }

  /** Where the entry that stands for a session is listed. */
  ghost function Position(s: Snapshot, entries: seq<Entry>): string -> nat {
    session =>
      if exists k: nat :: Stands(s, entries, k) && entries[k].session == session
      then var k: nat :| Stands(s, entries, k) && entries[k].session == session; k
      else 0
  }

  lemma PositionExactly(s: Snapshot, entries: seq<Entry>, k: nat)
    requires Stands(s, entries, k)
    ensures Position(s, entries)(entries[k].session) == k
  {
    var l := Position(s, entries)(entries[k].session);
    assert Stands(s, entries, l) && entries[l].session == entries[k].session;
  }

  lemma RisesByOne(rows: seq<Row>, r: Row, pos: string -> nat)
    requires Rising(rows, pos) && forall x :: x in rows ==> pos(x.session) < pos(r.session)
    ensures Rising(rows + [r], pos)
  {
  }

  lemma {:induction false} RowsRise(w: World, entries: seq<Entry>, n: nat)
    requires n <= |entries|
    ensures Rising(RowsOf(w, entries, n), Position(w.snap, entries))
    ensures forall r :: r in RowsOf(w, entries, n) ==> Position(w.snap, entries)(r.session) < n
  {
    if n > 0 {
      RowsRise(w, entries, n - 1);
      if Stands(w.snap, entries, n - 1) {
        PositionExactly(w.snap, entries, n - 1);
        RisesByOne(RowsOf(w, entries, n - 1), Base(w, entries[n - 1]), Position(w.snap, entries));
      }
    }
  }

  /** The rows shown are exactly those of the entries that stand for their session. */
  ghost predicate RightRows(w: World, entries: seq<Entry>, rows: seq<Row>) {
    forall r :: r in rows <==> exists k: nat :: Stands(w.snap, entries, k) && r == Shown(w, entries, entries[k])
  }

  /** `whoRows` */
  method WhoRows(w: World, entries: seq<Entry>) returns (rows: seq<Row>, pids: map<string, nat>)
    requires forall e :: e in entries ==> e in w.snap.entries
    ensures RightRows(w, entries, rows) && OneEach(rows)
    ensures pids == PidsBySession(w.snap, entries, |entries|)
    ensures Ordered(rows, Position(w.snap, entries))
  {
    var sessionsOf, address := Addresses(w.snap);
    var record := FirstRecords(w.recs);
    var base, p, live := BuildRows(w, entries, sessionsOf, address, record);
    var flagged := ApplyConvention(w, live, base);
    RowsRise(w, entries, |entries|);
    rows := SortStable(flagged, Position(w.snap, entries));
    pids := p;
    Flagged(w, entries, base, flagged, rows);
  }

  lemma Flagged(w: World, entries: seq<Entry>, base: seq<Row>, flagged: seq<Row>, rows: seq<Row>)
    requires base == RowsOf(w, entries, |entries|) && |flagged| == |base|
    requires forall i :: 0 <= i < |base| ==> flagged[i] == ByConvention(w, RecordedLive(w, entries), base[i])
    requires forall r :: r in rows <==> r in flagged
    ensures RightRows(w, entries, rows)
  {
    forall r
      ensures r in rows <==> exists k: nat :: Stands(w.snap, entries, k) && r == Shown(w, entries, entries[k])
    {
      if r in rows {
        var i :| 0 <= i < |flagged| && flagged[i] == r;
        RowsExactly(w, entries, |entries|, base[i]);
        var k: nat :| k < |entries| && BaseOf(w, entries, k, base[i]);
        assert r == Shown(w, entries, entries[k]);
      }
      if k: nat :| Stands(w.snap, entries, k) && r == Shown(w, entries, entries[k]) {
        RowsExactly(w, entries, |entries|, Base(w, entries[k]));
        assert BaseOf(w, entries, k, Base(w, entries[k]));
        var i :| 0 <= i < |base| && base[i] == Base(w, entries[k]);
        assert flagged[i] == r;
      }
    }
  }
}
