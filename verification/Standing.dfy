/** Which orchestrator a branch talks to, and whether a message may be acted on without asking: the two
    sides decide apart from each other, over one view. */
module Standing {
  import opened Option
  import opened Registry
  import opened Who

  datatype View = View(w: World, entries: seq<Entry>, rows: seq<Row>, pids: map<string, nat>)

  /** The view as `loadNameView` builds it: this repository's entries, and the rows `whoRows` makes. */
  ghost predicate Loaded(v: View) {
    && (forall e :: e in v.entries ==> e in v.w.snap.entries)
    && RightRows(v.w, v.entries, v.rows) && OneEach(v.rows)
    && v.pids == PidsBySession(v.w.snap, v.entries, |v.entries|)
  }

  /** No two registry files speak for one process. */
  ghost predicate DistinctPids(s: Snapshot) {
    forall e, f :: e in s.entries && f in s.entries && e.pid == f.pid ==> e == f
  }

  /** The claimed name of a sender and the pid of its socket (`None`: not parseable). */
  datatype Probe = Probe(fromName: string, pid: Option<nat>)

  datatype Verdict =
    | Accepted
    | FromAddrUnparseable | LivenessUnknown | SenderNotLive | NameNotUnique | PidMismatch
    | NoSelfRecord | NotOwnName | SelfNameNotUnique | StandingOff | NotBoundHere
    | NotBound | NotBoundTarget | CrossRepo

  /** `Find`: the first entry of a session. */
  function Find(entries: seq<Entry>, session: string): Option<Entry> {
    if entries == [] then None
    else
      var first := Find(entries[..|entries| - 1], session);
      var last := entries[|entries| - 1];
      if first.Some? then first else if last.session == session then Some(last) else None
  }

  /** The first index at which an entry of the session stands. */
  predicate FirstOfSession(entries: seq<Entry>, session: string, i: nat) {
    i < |entries| && entries[i].session == session && forall j :: 0 <= j < i ==> entries[j].session != session
  }

  lemma {:induction false} FindExactly(entries: seq<Entry>, session: string)
    ensures Find(entries, session) == None <==> forall i :: 0 <= i < |entries| ==> entries[i].session != session
    ensures forall i: nat :: FirstOfSession(entries, session, i) ==> Find(entries, session) == Some(entries[i])
  {
    if entries != [] {
      var front := entries[..|entries| - 1];
      FindExactly(front, session);
      assert entries == front + [entries[|entries| - 1]];
      forall i: nat | FirstOfSession(entries, session, i)
        ensures Find(entries, session) == Some(entries[i])
      {
        if i < |front| {
          assert FirstOfSession(front, session, i);
        }
      }
    }
  }

  lemma {:induction false} FindIsEntry(entries: seq<Entry>, session: string)
    ensures Find(entries, session).Some? ==>
              Find(entries, session).value in entries && Find(entries, session).value.session == session
  {
    if entries != [] {
      FindIsEntry(entries[..|entries| - 1], session);
    }
  }

  // ---------------------------------------------------------------------------------------
  // Resolution
  // ---------------------------------------------------------------------------------------

  datatype Source = FromBinding | Self | Single | Ambiguous | NoSource

  datatype Reason =
    | NoReason
    | TargetNotAlive
    | TargetNameNotUnique
    | TargetLivenessUnknown
    | BranchUnreadable
    | BudgetExhausted

  datatype Resolution = Resolution(source: Source, target: Option<Row>, reason: Reason, candidates: seq<Row>,
                                   selfRecord: Option<Record>)

  /** One entry per session, the first. */
  function Hits(named: seq<Entry>): seq<Entry> {
    if named == [] then []
    else
      var front, last := named[..|named| - 1], named[|named| - 1];
      Hits(front) + if exists e :: e in front && e.session == last.session then [] else [last]
  }

  function RowOfProcess(rows: seq<Row>, session: string, name: string): Option<Row> {
    if rows == [] then None
    else if rows[0].session == session && rows[0].name == name then Some(rows[0])
    else RowOfProcess(rows[1..], session, name)
  }

  /** `boundTarget`: this repository's row of the process, or a bare one without any standing. */
  function BoundTarget(rows: seq<Row>, e: Entry): Row {
    var row := RowOfProcess(rows, e.session, e.name);
    if row.Some? then row.value else Row(e.session, e.name, e.cwd, false, false, "", false, "", None)
  }

  function OrchestratorsBut(rows: seq<Row>, session: string): seq<Row> {
    if rows == [] then []
    else
      var front, last := rows[..|rows| - 1], rows[|rows| - 1];
      OrchestratorsBut(front, session) + if last.orchestrator && last.session != session then [last] else []
  }

  /** The caller's own row: the last of its session. */
  function RowOfSession(rows: seq<Row>, session: string): Option<Row> {
    if rows == [] then None
    else if rows[|rows| - 1].session == session then Some(rows[|rows| - 1])
    else RowOfSession(rows[..|rows| - 1], session)
  }

  /** The caller's own record, only while its name is carried by one live session. */
  ghost function SelfRecord(v: View, session: string): Option<Record> {
    var e := Find(v.w.snap.entries, session);
    if e.Some? && e.value.nameOK && |NamedOf(v.w.snap, e.value.name)| == 1
    then RecordOf(v.w.recs, e.value.name) else None
  }

  ghost function FromBound(v: View, name: string): (Option<Row>, Reason) {
    var hits := Hits(NamedOf(v.w.snap, name));
    if |hits| == 1 then (Some(BoundTarget(v.rows, hits[0])), NoReason)
    else if |hits| > 1 then (None, TargetNameNotUnique)
    else if v.w.snap.degraded then (None, TargetLivenessUnknown)
    else (None, TargetNotAlive)
  }

  /** The specification of `ResolveOrchestrator`: a binding, then the caller itself, then the rows. */
  ghost function Resolve(v: View, session: string, branch: string, expired: bool): Resolution {
    var record := SelfRecord(v, session);
    var bound := Bound(v.w, branch);
    var self := RowOfSession(v.rows, session);
    if bound.Some? then
      var (target, reason) := FromBound(v, bound.value);
      Resolution(FromBinding, target, reason, [], record)
    else if self.Some? && self.value.orchestrator then Resolution(Self, self, NoReason, [], record)
    else if expired then
      Resolution(NoSource, None, if branch == "" then BranchUnreadable else BudgetExhausted, [], record)
    else
      var orchs := OrchestratorsBut(v.rows, session);
      if orchs == [] then Resolution(NoSource, None, NoReason, orchs, record)
      else if |orchs| == 1 && !v.w.snap.degraded then Resolution(Single, Some(orchs[0]), NoReason, orchs, record)
      else Resolution(Ambiguous, None, NoReason, orchs, record)
  }

  predicate Other(row: Row, session: string) {
    row.orchestrator && row.session != session
  }

  /** The caller's own row is the last of its session. */
  predicate OwnRow(rows: seq<Row>, session: string, i: nat) {
    i < |rows| && rows[i].session == session && forall j :: i < j < |rows| ==> rows[j].session != session
  }

  predicate OnlyOther(rows: seq<Row>, session: string, i: nat) {
    i < |rows| && Other(rows[i], session) && forall j :: 0 <= j < |rows| && j != i ==> !Other(rows[j], session)
  }

  predicate NoOther(rows: seq<Row>, session: string) {
    forall i :: 0 <= i < |rows| ==> !Other(rows[i], session)
  }

  lemma {:induction false} OwnRowExactly(rows: seq<Row>, session: string)
    ensures forall i: nat :: OwnRow(rows, session, i) ==> RowOfSession(rows, session) == Some(rows[i])
    ensures RowOfSession(rows, session).Some? <==> exists i: nat :: OwnRow(rows, session, i)
  {
    if rows != [] {
      var front, n := rows[..|rows| - 1], |rows| - 1;
      OwnRowExactly(front, session);
      if rows[n].session == session {
        assert OwnRow(rows, session, n);
      } else {
        forall i: nat
          ensures OwnRow(rows, session, i) <==> OwnRow(front, session, i)
        {
          assert i < n ==> front[i] == rows[i];
          assert forall j :: 0 <= j < n ==> front[j] == rows[j];
        }
      }
    }
  }

  lemma {:induction false} OthersExactly(rows: seq<Row>, session: string, r: Row)
    ensures OrchestratorsBut(rows, session) == [] <==> NoOther(rows, session)
    ensures r in OrchestratorsBut(rows, session) <==> r in rows && Other(r, session)
  {
    if rows != [] {
      var front, last := rows[..|rows| - 1], rows[|rows| - 1];
      OthersExactly(front, session, r);
      assert rows == front + [last];
      assert forall j :: 0 <= j < |front| ==> front[j] == rows[j];
    }
  }

  lemma {:induction false} OnlyOtherIsAlone(rows: seq<Row>, session: string, i: nat)
    requires OnlyOther(rows, session, i)
    ensures OrchestratorsBut(rows, session) == [rows[i]]
  {
    var front, n := rows[..|rows| - 1], |rows| - 1;
    assert forall j :: 0 <= j < n ==> front[j] == rows[j];
    if i < n {
      assert !Other(rows[n], session);
      OnlyOtherIsAlone(front, session, i);
    } else {
      OthersExactly(front, session, rows[n]);
    }
  }

  lemma {:induction false} AloneIsOnlyOther(rows: seq<Row>, session: string) returns (i: nat)
    requires |OrchestratorsBut(rows, session)| == 1
    ensures OnlyOther(rows, session, i)
  {
    var front, n := rows[..|rows| - 1], |rows| - 1;
    assert forall j :: 0 <= j < n ==> front[j] == rows[j];
    if Other(rows[n], session) {
      i := n;
      OthersExactly(front, session, rows[n]);
    } else {
      i := AloneIsOnlyOther(front, session);
    }
  }

  /** What `lets:orc` talks to on a branch without a binding, over the rows. */
  ghost predicate UnboundAnswer(v: View, session: string, branch: string, expired: bool, r: Resolution) {
    var own := exists i: nat :: OwnRow(v.rows, session, i) && v.rows[i].orchestrator;
    var only := exists i: nat :: OnlyOther(v.rows, session, i);
    // the caller itself, exactly when its own row is an orchestrator's
    && (r.source == Self <==> own)
    && (forall i: nat :: r.source == Self && OwnRow(v.rows, session, i) ==> r.target == Some(v.rows[i]))
    // the one other orchestrator row, and only beside a registry read whole
    && (r.source == Single <==> !own && !expired && only && !v.w.snap.degraded)
    && (forall i: nat :: r.source == Single && OnlyOther(v.rows, session, i) ==> r.target == Some(v.rows[i]))
    && (r.source == Ambiguous <==> !own && !expired && !NoOther(v.rows, session) && !(only && !v.w.snap.degraded))
    && (r.source == NoSource <==> !own && (expired || NoOther(v.rows, session)))
    && (r.target.Some? <==> r.source == Self || r.source == Single)
    // an exhausted budget never falls through to another orchestrator
    && (expired && r.target.Some? ==> own)
    && (r.reason == BranchUnreadable <==> !own && expired && branch == "")
    && (r.reason == BudgetExhausted <==> !own && expired && branch != "")
    && r.reason in {NoReason, BranchUnreadable, BudgetExhausted}
    && (forall c :: c in r.candidates <==> !own && !expired && c in v.rows && Other(c, session))
  }

  lemma UnboundExactly(v: View, session: string, branch: string, expired: bool)
    requires Bound(v.w, branch) == None
    ensures UnboundAnswer(v, session, branch, expired, Resolve(v, session, branch, expired))
  {
    OwnRowExactly(v.rows, session);
    forall r
      ensures OrchestratorsBut(v.rows, session) == [] <==> NoOther(v.rows, session)
      ensures r in OrchestratorsBut(v.rows, session) <==> r in v.rows && Other(r, session)
    {
      OthersExactly(v.rows, session, r);
    }
    forall i: nat | OnlyOther(v.rows, session, i)
      ensures OrchestratorsBut(v.rows, session) == [v.rows[i]]
    {
      OnlyOtherIsAlone(v.rows, session, i);
    }
    if |OrchestratorsBut(v.rows, session)| == 1 {
      var i := AloneIsOnlyOther(v.rows, session);
    }
  }

  /** The processes of a name, by session: none exactly when no process carries it, one exactly when they all run
      the same session, and then its first. */
  lemma {:induction false} HitsExactly(named: seq<Entry>)
    ensures Hits(named) == [] <==> named == []
    ensures named != [] ==> Hits(named)[0] == named[0]
    ensures |Hits(named)| == 1 <==> named != [] && forall i :: 0 <= i < |named| ==> named[i].session == named[0].session
  {
    if named != [] {
      var front, n := named[..|named| - 1], |named| - 1;
      HitsExactly(front);
      assert named == front + [named[n]];
      assert forall i :: 0 <= i < n ==> front[i] == named[i];
      if front != [] {
        assert front[0] == named[0] && front[0] in front;
      }
    }
  }

  /** What a binding resolves to: the one session that is an address of the name; without one, why. */
  lemma BoundExactly(v: View, name: string)
    ensures var named := NamedOf(v.w.snap, name);
            var (target, reason) := FromBound(v, name);
            var one := named != [] && forall i :: 0 <= i < |named| ==> named[i].session == named[0].session;
            && (target == if one then Some(BoundTarget(v.rows, named[0])) else None)
            && (reason == NoReason <==> one)
            && (reason == TargetNameNotUnique <==> named != [] && !one)
            && (reason == TargetLivenessUnknown <==> named == [] && v.w.snap.degraded)
            && (reason == TargetNotAlive <==> named == [] && !v.w.snap.degraded)
  {
    HitsExactly(NamedOf(v.w.snap, name));
  }

  predicate RowOf(row: Row, e: Entry) {
    row.session == e.session && row.name == e.name
  }

  /** The target of a binding is this repository's first row of that session under that name. Without one it is
      the process as the registry shows it, and such a target has no standing and is no orchestrator here. */
  lemma {:induction false} BoundTargetExactly(rows: seq<Row>, e: Entry, i: nat)
    ensures i < |rows| && RowOf(rows[i], e) && (forall j :: 0 <= j < i ==> !RowOf(rows[j], e)) ==>
              BoundTarget(rows, e) == rows[i]
    ensures (forall j :: 0 <= j < |rows| ==> !RowOf(rows[j], e)) ==>
              var t := BoundTarget(rows, e);
              && RowOf(t, e) && t.cwd == e.cwd && !t.duplicate && !t.orchestrator && !t.standing
              && t.scope == t.branch == "" && t.orc == None
    decreases |rows|
  {
    if rows != [] && !RowOf(rows[0], e) {
      assert forall j :: 0 < j < |rows| ==> rows[1..][j - 1] == rows[j];
      assert forall j :: 0 <= j < |rows[1..]| ==> rows[1..][j] == rows[j + 1];
      BoundTargetExactly(rows[1..], e, if i == 0 then 0 else i - 1);
    }
  }

  /** The caller's own record: the first of its name, while the first entry of its session has a name a message
      can be addressed to and one live session carries it. */
  lemma OwnRecordExactly(v: View, session: string, record: Record)
    ensures SelfRecord(v, session) == Some(record)
            <==> exists i: nat, k: nat ::
                   && FirstOfSession(v.w.snap.entries, session, i) && v.w.snap.entries[i].nameOK
                   && |NamedOf(v.w.snap, v.w.snap.entries[i].name)| == 1
                   && FirstRecordOf(v.w.recs, v.w.snap.entries[i].name, k) && v.w.recs[k] == record
  {
    var entries := v.w.snap.entries;
    FindExactly(entries, session);
    if i: nat :| FirstOfSession(entries, session, i) {
      RecordOfExactly(v.w.recs, entries[i].name);
    } else {
      NoFirst(entries, session, |entries|);
    }
  }

  lemma {:induction false} NoFirst(entries: seq<Entry>, session: string, n: nat)
    requires n <= |entries| && forall i: nat :: !FirstOfSession(entries, session, i)
    ensures forall i :: 0 <= i < n ==> entries[i].session != session
  {
    if n > 0 {
      NoFirst(entries, session, n - 1);
      assert !FirstOfSession(entries, session, n - 1);
    }
  }

  method FindEntry(entries: seq<Entry>, session: string) returns (e: Option<Entry>)
    ensures e == Find(entries, session)
  {
    for i := 0 to |entries|
      invariant Find(entries[..i], session) == None
    {
      assert entries[..i + 1][..i] == entries[..i];
      if entries[i].session == session {
        FindStays(entries, i + 1, session);
        return Some(entries[i]);
      }
    }
    assert entries[..|entries|] == entries;
    return None;
  }

  lemma {:induction false} FindStays(entries: seq<Entry>, n: nat, session: string)
    requires n <= |entries| && Find(entries[..n], session).Some?
    ensures Find(entries, session) == Find(entries[..n], session)
  {
    if n == |entries| {
      assert entries[..n] == entries;
    } else {
      var front := entries[..|entries| - 1];
      assert front[..n] == entries[..n];
      FindStays(front, n, session);
    }
  }

  method FirstRecord(recs: seq<Record>, name: string) returns (r: Option<Record>)
    ensures r == RecordOf(recs, name)
  {
    for i := 0 to |recs|
      invariant RecordOf(recs[..i], name) == None
    {
      assert recs[..i + 1][..i] == recs[..i];
      if recs[i].name == name {
        RecordStays(recs, i + 1, name);
        return Some(recs[i]);
      }
    }
    assert recs[..|recs|] == recs;
    return None;
  }

  lemma {:induction false} RecordStays(recs: seq<Record>, n: nat, name: string)
    requires n <= |recs| && RecordOf(recs[..n], name).Some?
    ensures RecordOf(recs, name) == RecordOf(recs[..n], name)
  {
    if n == |recs| {
      assert recs[..n] == recs;
    } else {
      var front := recs[..|recs| - 1];
      assert front[..n] == recs[..n];
      RecordStays(front, n, name);
    }
  }

  method FindTarget(rows: seq<Row>, e: Entry) returns (t: Row)
    ensures t == BoundTarget(rows, e)
  {
    var i := 0;
    assert rows[0..] == rows;
    while i < |rows|
      invariant 0 <= i <= |rows| && RowOfProcess(rows, e.session, e.name) == RowOfProcess(rows[i..], e.session, e.name)
    {
      if rows[i].session == e.session && rows[i].name == e.name { return rows[i]; }
      i := i + 1;
    }
    return Row(e.session, e.name, e.cwd, false, false, "", false, "", None);
  }

  lemma OneMoreHit(named: seq<Entry>, i: nat)
    requires i < |named|
    ensures SessionsOf(named[..i + 1]) == SessionsOf(named[..i]) + {named[i].session}
    ensures Hits(named[..i + 1])
            == Hits(named[..i]) + if named[i].session in SessionsOf(named[..i]) then [] else [named[i]]
  {
    assert named[..i + 1] == named[..i] + [named[i]];
    assert named[..i + 1][..i] == named[..i];
  }

  method ResolveBound(v: View, name: string) returns (target: Option<Row>, reason: Reason)
    ensures (target, reason) == FromBound(v, name)
  {
    var named := Named(v.w.snap, name);
    var hits: seq<Entry> := [];
    var seen: set<string> := {};
    for i := 0 to |named|
      invariant hits == Hits(named[..i]) && seen == SessionsOf(named[..i])
    {
      OneMoreHit(named, i);
      if named[i].session !in seen {
        seen, hits := seen + {named[i].session}, hits + [named[i]];
      }
    }
    assert named[..|named|] == named;
    if |hits| == 1 {
      var t := FindTarget(v.rows, hits[0]);
      return Some(t), NoReason;
    }
    if |hits| > 1 { return None, TargetNameNotUnique; }
    return None, if v.w.snap.degraded then TargetLivenessUnknown else TargetNotAlive;
  }

  method OwnRecord(v: View, session: string) returns (r: Option<Record>)
    ensures r == SelfRecord(v, session)
  {
    var e := FindEntry(v.w.snap.entries, session);
    if e.None? || !e.value.nameOK { return None; }
    var record := FirstRecord(v.w.recs, e.value.name);
    if record.None? { return None; }
    var named := Named(v.w.snap, e.value.name);
    return if |named| == 1 then record else None;
  }

  /** `ResolveOrchestrator` */
  method ResolveOrchestrator(v: View, session: string, branch: string, expired: bool) returns (res: Resolution)
    ensures res == Resolve(v, session, branch, expired)
    ensures Bound(v.w, branch) == None ==> UnboundAnswer(v, session, branch, expired, res)
  {
    res := ResolveInOrder(v, session, branch, expired);
    if Bound(v.w, branch) == None { UnboundExactly(v, session, branch, expired); }
  }

  /** Its steps: the caller's own row, the binding, the budget, the rows. */
  method ResolveInOrder(v: View, session: string, branch: string, expired: bool) returns (res: Resolution)
    ensures res == Resolve(v, session, branch, expired)
  {
    var self: Option<Row> := None;
    for i := 0 to |v.rows|
      invariant self == RowOfSession(v.rows[..i], session)
    {
      assert v.rows[..i + 1][..i] == v.rows[..i];
      if v.rows[i].session == session { self := Some(v.rows[i]); }
    }
    assert v.rows[..|v.rows|] == v.rows;
    var record := OwnRecord(v, session);
    var bound := Bound(v.w, branch);
    if bound.Some? {
      var target, reason := ResolveBound(v, bound.value);
      return Resolution(FromBinding, target, reason, [], record);
    }
    if self.Some? && self.value.orchestrator { return Resolution(Self, self, NoReason, [], record); }
    if expired {
      return Resolution(NoSource, None, if branch == "" then BranchUnreadable else BudgetExhausted, [], record);
    }
    var orchs: seq<Row> := [];
    for i := 0 to |v.rows|
      invariant orchs == OrchestratorsBut(v.rows[..i], session)
    {
      assert v.rows[..i + 1][..i] == v.rows[..i];
      if v.rows[i].orchestrator && v.rows[i].session != session { orchs := orchs + [v.rows[i]]; }
    }
    assert v.rows[..|v.rows|] == v.rows;
    if |orchs| == 0 { return Resolution(NoSource, None, NoReason, orchs, record); }
    if |orchs| == 1 && !v.w.snap.degraded { return Resolution(Single, Some(orchs[0]), NoReason, orchs, record); }
    return Resolution(Ambiguous, None, NoReason, orchs, record);
  }

  // ---------------------------------------------------------------------------------------
  // The two standing decisions
  // ---------------------------------------------------------------------------------------

  /** `standingSender`: the one live entry of the name, and the pid must be its own. */
  ghost function Sender(v: View, p: Probe): (Option<Entry>, Verdict) {
    var hits := NamedOf(v.w.snap, p.fromName);
    if p.pid.None? then (None, FromAddrUnparseable)
    else if v.w.snap.degraded then (None, LivenessUnknown)
    else if hits == [] then (None, SenderNotLive)
    else if |hits| > 1 then (None, NameNotUnique)
    else if hits[0].pid != p.pid.value then (None, PidMismatch)
    else (Some(hits[0]), Accepted)
  }

  predicate IsRowOf(v: View, r: Row, e: Entry) {
    r.session == e.session && r.name == e.name && e.session in v.pids && v.pids[e.session] == e.pid
  }

  /** `repoRowOf`: this repository's row of the very process. */
  function RepoRow(v: View, rows: seq<Row>, e: Entry): Option<Row> {
    if rows == [] then None
    else if IsRowOf(v, rows[0], e) then Some(rows[0])
    else RepoRow(v, rows[1..], e)
  }

  /** The orchestrator side, for a worker's message. */
  ghost function FromWorker(v: View, self: string, own: string, p: Probe): Verdict {
    var (sender, why) := Sender(v, p);
    var e := Find(v.w.snap.entries, self);
    if why != Accepted then why
    else if e.None? || !e.value.nameOK then NoSelfRecord
    else if own != e.value.name then NotOwnName
    else if |NamedOf(v.w.snap, e.value.name)| != 1 then SelfNameNotUnique
    else
      var rec := RecordOf(v.w.recs, e.value.name);
      var row := RepoRow(v, v.rows, sender.value);
      if rec.None? then NoSelfRecord
      else if !rec.value.standing then StandingOff
      else if row.None? || row.value.orc != Some(own) then NotBoundHere
      else Accepted
  }

  /** The worker side, for its orchestrator's message. */
  ghost function FromOrchestrator(v: View, r: Resolution, p: Probe): Verdict {
    var (sender, why) := Sender(v, p);
    if why != Accepted then why
    else if r.source != FromBinding || r.target.None? then NotBound
    else if p.fromName != r.target.value.name then NotBoundTarget
    else
      var row := RepoRow(v, v.rows, sender.value);
      if row.None? then CrossRepo
      else if !row.value.standing then StandingOff
      else Accepted
  }

  /** Each reason for which a worker's message is not acted on, exactly when: the sender first, then whose grant it
      is, then the grant, and last whether the sender's row is bound to it. */
  ghost predicate WorkerVerdict(v: View, self: string, own: string, p: Probe, verdict: Verdict) {
    var (sender, why) := Sender(v, p);
    var ok, e, rec := why == Accepted, Find(v.w.snap.entries, self), RecordOf(v.w.recs, own);
    var named := e.Some? && e.value.nameOK;
    var holder := named && e.value.name == own && |NamedOf(v.w.snap, own)| == 1;
    var bound := sender.Some? && exists i: nat :: RepoRowAt(v, sender.value, i) && v.rows[i].orc == Some(own);
    && (!ok ==> verdict == why)
    && (ok ==>
          && (verdict == NotOwnName <==> named && e.value.name != own)
          && (verdict == SelfNameNotUnique <==> named && e.value.name == own && |NamedOf(v.w.snap, own)| != 1)
          && (verdict == NoSelfRecord <==> !named || (holder && rec == None))
          && (verdict == StandingOff <==> holder && rec.Some? && !rec.value.standing)
          && (verdict == NotBoundHere <==> holder && rec.Some? && rec.value.standing && !bound)
          && (verdict == Accepted <==> holder && rec.Some? && rec.value.standing && bound))
  }

  /** And of the other side: the sender, then whether the branch is bound to that name, then its row here. */
  ghost predicate OrchestratorVerdict(v: View, r: Resolution, p: Probe, verdict: Verdict) {
    var (sender, why) := Sender(v, p);
    var ok := why == Accepted;
    var bound := r.source == FromBinding && r.target.Some?;
    var meant := bound && r.target.value.name == p.fromName;
    var here := sender.Some? && exists i: nat :: RepoRowAt(v, sender.value, i);
    var granted := sender.Some? && exists i: nat :: RepoRowAt(v, sender.value, i) && v.rows[i].standing;
    && (!ok ==> verdict == why)
    && (ok ==>
          && (verdict == NotBound <==> !bound)
          && (verdict == NotBoundTarget <==> bound && !meant)
          && (verdict == CrossRepo <==> meant && !here)
          && (verdict == StandingOff <==> meant && here && !granted)
          && (verdict == Accepted <==> meant && granted))
  }

  /** The first row built from that very process. */
  ghost predicate RepoRowAt(v: View, e: Entry, i: nat) {
    i < |v.rows| && IsRowOf(v, v.rows[i], e) && forall j :: 0 <= j < i ==> !IsRowOf(v, v.rows[j], e)
  }

  lemma {:induction false} RepoRowExactly(v: View, e: Entry, k: nat)
    requires k <= |v.rows| && forall j :: 0 <= j < k ==> !IsRowOf(v, v.rows[j], e)
    ensures forall i: nat :: RepoRowAt(v, e, i) ==> RepoRow(v, v.rows[k..], e) == Some(v.rows[i])
    ensures RepoRow(v, v.rows[k..], e).Some? ==> exists i: nat :: RepoRowAt(v, e, i)
    decreases |v.rows| - k
  {
    if k < |v.rows| {
      if IsRowOf(v, v.rows[k], e) {
        assert RepoRowAt(v, e, k);
      } else {
        RepoRowExactly(v, e, k + 1);
        assert v.rows[k..][1..] == v.rows[k + 1..];
      }
    }
  }

  lemma RepoRowIsFirst(v: View, e: Entry)
    ensures forall i: nat :: RepoRowAt(v, e, i) ==> RepoRow(v, v.rows, e) == Some(v.rows[i])
    ensures RepoRow(v, v.rows, e).Some? ==> exists i: nat :: RepoRowAt(v, e, i)
  {
    RepoRowExactly(v, e, 0);
    assert v.rows[0..] == v.rows;
  }

  lemma WorkerVerdictExactly(v: View, self: string, own: string, p: Probe)
    ensures WorkerVerdict(v, self, own, p, FromWorker(v, self, own, p))
  {
    if Sender(v, p).1 == Accepted {
      RepoRowIsFirst(v, Sender(v, p).0.value);
    }
  }

  lemma OrchestratorVerdictExactly(v: View, r: Resolution, p: Probe)
    ensures OrchestratorVerdict(v, r, p, FromOrchestrator(v, r, p))
  {
    if Sender(v, p).1 == Accepted {
      RepoRowIsFirst(v, Sender(v, p).0.value);
    }
  }

  method StandingSender(v: View, p: Probe) returns (sender: Option<Entry>, why: Verdict)
    ensures (sender, why) == Sender(v, p)
    ensures why == Accepted <==> sender.Some?
    ensures why == FromAddrUnparseable <==> p.pid.None?
    ensures why == LivenessUnknown <==> p.pid.Some? && v.w.snap.degraded
    ensures why == NameNotUnique <==> p.pid.Some? && !v.w.snap.degraded && |NamedOf(v.w.snap, p.fromName)| > 1
    ensures why == PidMismatch <==> p.pid.Some? && !v.w.snap.degraded && |NamedOf(v.w.snap, p.fromName)| == 1
                                    && NamedOf(v.w.snap, p.fromName)[0].pid != p.pid.value
    ensures why in {Accepted, FromAddrUnparseable, LivenessUnknown, SenderNotLive, NameNotUnique, PidMismatch}
    ensures sender.Some? ==> NamedOf(v.w.snap, p.fromName) == [sender.value] && p.pid == Some(sender.value.pid)
    ensures v.w.snap.degraded ==> sender == None
    ensures why == SenderNotLive <==> p.pid.Some? && !v.w.snap.degraded && NamedOf(v.w.snap, p.fromName) == []
  {
    if p.pid.None? { return None, FromAddrUnparseable; }
    if v.w.snap.degraded { return None, LivenessUnknown; }
    var hits := Named(v.w.snap, p.fromName);
    if |hits| == 0 { return None, SenderNotLive; }
    if |hits| > 1 { return None, NameNotUnique; }
    if hits[0].pid != p.pid.value { return None, PidMismatch; }
    return Some(hits[0]), Accepted;
  }

  method RepoRowOf(v: View, e: Entry) returns (row: Option<Row>)
    ensures row == RepoRow(v, v.rows, e)
  {
    var i := 0;
    assert v.rows[0..] == v.rows;
    while i < |v.rows|
      invariant 0 <= i <= |v.rows| && RepoRow(v, v.rows, e) == RepoRow(v, v.rows[i..], e)
    {
      if IsRowOf(v, v.rows[i], e) { return Some(v.rows[i]); }
      i := i + 1;
    }
    return None;
  }

  method StandingFromWorker(v: View, self: string, own: string, p: Probe) returns (verdict: Verdict)
    ensures verdict == FromWorker(v, self, own, p)
    ensures WorkerVerdict(v, self, own, p, verdict)
    ensures verdict == Accepted ==>
              && !v.w.snap.degraded && |NamedOf(v.w.snap, own)| == 1 && |NamedOf(v.w.snap, p.fromName)| == 1
              && NamedOf(v.w.snap, p.fromName)[0].pid == p.pid.value
              && RecordOf(v.w.recs, own).Some? && RecordOf(v.w.recs, own).value.standing
    ensures verdict == Accepted ==> exists r :: r in v.rows && r.name == p.fromName && r.orc == Some(own)
  {
    WorkerVerdictExactly(v, self, own, p);
    var sender, why := StandingSender(v, p);
    if why != Accepted { return why; }
    var e := FindEntry(v.w.snap.entries, self);
    if e.None? || !e.value.nameOK { return NoSelfRecord; }
    if own != e.value.name { return NotOwnName; }
    var named := Named(v.w.snap, e.value.name);
    if |named| != 1 { return SelfNameNotUnique; }
    var rec := FirstRecord(v.w.recs, e.value.name);
    if rec.None? { return NoSelfRecord; }
    if !rec.value.standing { return StandingOff; }
    var row := RepoRowOf(v, sender.value);
    if row.None? || row.value.orc != Some(own) { return NotBoundHere; }
    RepoRowIsRow(v, v.rows, sender.value);
    NamedExactly(v.w.snap, p.fromName, sender.value);
    assert row.value in v.rows && row.value.name == p.fromName;
    return Accepted;
  }

  method StandingFromOrchestrator(v: View, r: Resolution, p: Probe) returns (verdict: Verdict)
    ensures verdict == FromOrchestrator(v, r, p)
    ensures OrchestratorVerdict(v, r, p, verdict)
    ensures verdict == Accepted ==>
              && !v.w.snap.degraded && |NamedOf(v.w.snap, p.fromName)| == 1
              && NamedOf(v.w.snap, p.fromName)[0].pid == p.pid.value
              && r.source == FromBinding && r.target.Some? && r.target.value.name == p.fromName
    ensures verdict == Accepted ==> exists row :: row in v.rows && row.name == p.fromName && row.standing
  {
    OrchestratorVerdictExactly(v, r, p);
    var sender, why := StandingSender(v, p);
    if why != Accepted { return why; }
    if r.source != FromBinding || r.target.None? { return NotBound; }
    if p.fromName != r.target.value.name { return NotBoundTarget; }
    var row := RepoRowOf(v, sender.value);
    if row.None? { return CrossRepo; }
    if !row.value.standing { return StandingOff; }
    RepoRowIsRow(v, v.rows, sender.value);
    NamedExactly(v.w.snap, p.fromName, sender.value);
    assert row.value in v.rows && row.value.name == p.fromName;
    return Accepted;
  }

  // ---------------------------------------------------------------------------------------
  // They agree
  // ---------------------------------------------------------------------------------------

  lemma {:induction false} RepoRowIsRow(v: View, rows: seq<Row>, e: Entry)
    ensures RepoRow(v, rows, e).Some? ==> RepoRow(v, rows, e).value in rows && IsRowOf(v, RepoRow(v, rows, e).value, e)
    ensures RepoRow(v, rows, e).Some? <==> exists r :: r in rows && IsRowOf(v, r, e)
  {
    if rows != [] {
      RepoRowIsRow(v, rows[1..], e);
      assert rows == [rows[0]] + rows[1..];
    }
  }

  lemma {:induction false} ProcessRowIsRow(rows: seq<Row>, e: Entry)
    ensures var t := RowOfProcess(rows, e.session, e.name);
            t.Some? ==> t.value in rows && t.value.session == e.session && t.value.name == e.name
  {
    if rows != [] {
      ProcessRowIsRow(rows[1..], e);
    }
  }

  /** A row of a process in this repository is the one `who` built from its own entry. */
  lemma RowIsOfEntry(v: View, e: Entry)
    requires Loaded(v) && DistinctPids(v.w.snap) && e in v.w.snap.entries
    requires RepoRow(v, v.rows, e).Some?
    ensures RepoRow(v, v.rows, e).value == Shown(v.w, v.entries, e)
    ensures !Collapsed(v.w.snap, e)
  {
    RepoRowIsRow(v, v.rows, e);
    var row := RepoRow(v, v.rows, e).value;
    var k: nat :| Stands(v.w.snap, v.entries, k) && row == Shown(v.w, v.entries, v.entries[k]);
    PidOfRow(v, e, row, k);
  }

  lemma PidOfRow(v: View, e: Entry, row: Row, k: nat)
    requires v.pids == PidsBySession(v.w.snap, v.entries, |v.entries|) && DistinctPids(v.w.snap)
    requires e in v.w.snap.entries && IsRowOf(v, row, e)
    requires Stands(v.w.snap, v.entries, k) && row.session == v.entries[k].session && v.entries[k] in v.w.snap.entries
    ensures v.entries[k] == e
  {
    PidExactly(v.w.snap, v.entries, |v.entries|, k);
    assert v.entries[k].pid == e.pid;
  }

  /** An address of its own name, when its pid is. */
  lemma KeptByItsPid(s: Snapshot, e: Entry)
    requires DistinctPids(s) && e in s.entries && e.nameOK && !Collapsed(s, e)
    ensures e in NamedOf(s, e.name)
  {
    var name :| CarriedBy(s, name) && e.pid in PidsOf(NamedOf(s, name));
    var f :| f in NamedOf(s, name) && f.pid == e.pid;
    NamedExactly(s, name, f);
  }

  lemma SingleHit(named: seq<Entry>)
    requires |named| == 1
    ensures Hits(named) == named
  {
    assert named[..0] == [];
    assert Hits(named[..0]) == [];
  }

  /** A bound branch is answered from its binding, and never with a target of another name; it gets a
      target exactly when one session is an address of the name. */
  lemma BoundStaysBound(v: View, session: string, branch: string, expired: bool)
    requires Bound(v.w, branch).Some?
    ensures var name := Bound(v.w, branch).value;
            var r := Resolve(v, session, branch, expired);
            && r.source == FromBinding
            && (r.target.Some? ==> r.target.value.name == name)
            && (r.target.Some? <==> |Hits(NamedOf(v.w.snap, name))| == 1)
            && (r.target.Some? <==> r.reason == NoReason)
  {
    var name := Bound(v.w, branch).value;
    var hits := Hits(NamedOf(v.w.snap, name));
    if |hits| == 1 {
      HitsAreNamed(NamedOf(v.w.snap, name), hits[0]);
      NamedExactly(v.w.snap, name, hits[0]);
      ProcessRowIsRow(v.rows, hits[0]);
    }
  }

  lemma {:induction false} HitsAreNamed(named: seq<Entry>, e: Entry)
    ensures e in Hits(named) ==> e in named
  {
    if named != [] {
      HitsAreNamed(named[..|named| - 1], e);
    }
  }

  /** What both sides come down to: the registry could be read, each name has one address, the branch
      the worker has checked out is bound to the orchestrator's name, and its first record says so. */
  ghost predicate Granted(v: View, w: Entry, o: Entry) {
    && !v.w.snap.degraded
    && NamedOf(v.w.snap, o.name) == [o]
    && Bound(v.w, v.w.branchOf(w.cwd)) == Some(o.name)
    && RecordOf(v.w.recs, o.name).Some? && RecordOf(v.w.recs, o.name).value.standing
  }

  /** The orchestrator has a row of its own in this repository, and its session is not another's too. */
  ghost predicate AtHome(v: View, o: Entry) {
    && Loaded(v) && DistinctPids(v.w.snap)
    && o in v.w.snap.entries && o.nameOK && RepoRow(v, v.rows, o).Some?
  }

  /** What follows for its row and its name. */
  ghost predicate RowTells(v: View, e: Entry) {
    && e.nameOK && RepoRow(v, v.rows, e).Some?
    && RepoRow(v, v.rows, e).value.orc == Bound(v.w, v.w.branchOf(e.cwd))
    && (RepoRow(v, v.rows, e).value.standing
        <==> RecordOf(v.w.recs, e.name).Some? && RecordOf(v.w.recs, e.name).value.standing)
    && (|NamedOf(v.w.snap, e.name)| == 1 <==> NamedOf(v.w.snap, e.name) == [e])
  }

  lemma AtHomeTells(v: View, e: Entry)
    requires AtHome(v, e)
    ensures RowTells(v, e)
  {
    RowIsOfEntry(v, e);
    KeptByItsPid(v.w.snap, e);
    ShownTells(v.w, v.entries, e);
    OneAddress(NamedOf(v.w.snap, e.name), e);
  }

  lemma ShownTells(w: World, entries: seq<Entry>, e: Entry)
    requires e.nameOK
    ensures var r := Shown(w, entries, e);
            && r.orc == Bound(w, w.branchOf(e.cwd))
            && (r.standing <==> RecordOf(w.recs, e.name).Some? && RecordOf(w.recs, e.name).value.standing)
  {
  }

  lemma OneAddress(named: seq<Entry>, e: Entry)
    requires e in named
    ensures |named| == 1 <==> named == [e]
  {
  }

  /** Whom the sender check lets through under a name: the process that is its one address. It is a live
      entry carrying the name that nothing carrying it continues; every other process, and every name with
      no address or with two, is refused. */
  lemma SenderIsTheAddress(v: View, name: string, pid: nat)
    ensures Sender(v, Probe(name, Some(pid))).1 == Accepted
            <==> && !v.w.snap.degraded && |NamedOf(v.w.snap, name)| == 1
                 && exists e :: && e in v.w.snap.entries && e.nameOK && e.name == name && e.pid == pid
                                && forall c :: c in v.w.snap.entries && c.nameOK && c.name == name ==> !Continues(e, c)
  {
    var hits := NamedOf(v.w.snap, name);
    if |hits| == 1 {
      NamedExactly(v.w.snap, name, hits[0]);
      forall e | && e in v.w.snap.entries && e.nameOK && e.name == name
                 && forall c :: c in v.w.snap.entries && c.nameOK && c.name == name ==> !Continues(e, c)
        ensures e == hits[0]
      {
        NamedExactly(v.w.snap, name, e);
      }
    }
  }

  /** The orchestrator side accepts a worker's message exactly when the standing is granted. */
  lemma OrchestratorSide(v: View, w: Entry, o: Entry)
    requires AtHome(v, o) && Find(v.w.snap.entries, o.session) == Some(o)
    requires AtHome(v, w) && NamedOf(v.w.snap, w.name) == [w]
    ensures FromWorker(v, o.session, o.name, Probe(w.name, Some(w.pid))) == Accepted <==> Granted(v, w, o)
  {
    AtHomeTells(v, w);
    AtHomeTells(v, o);
  }

  lemma TargetWhenGranted(v: View, w: Entry, o: Entry, expired: bool)
    requires NamedOf(v.w.snap, o.name) == [o] && Bound(v.w, v.w.branchOf(w.cwd)) == Some(o.name)
    ensures var r := Resolve(v, w.session, v.w.branchOf(w.cwd), expired);
            r.source == FromBinding && r.target.Some?
            && r.target.value.name == o.name && r.target.value.session == o.session
  {
    SingleHit(NamedOf(v.w.snap, o.name));
    ProcessRowIsRow(v.rows, o);
  }

  lemma WorkerSideByRow(v: View, w: Entry, o: Entry, expired: bool)
    requires RowTells(v, o)
    ensures FromOrchestrator(v, Resolve(v, w.session, v.w.branchOf(w.cwd), expired), Probe(o.name, Some(o.pid)))
            == Accepted
            <==> Granted(v, w, o)
  {
    if Granted(v, w, o) {
      TargetWhenGranted(v, w, o, expired);
    } else if Bound(v.w, v.w.branchOf(w.cwd)).Some? {
      BoundStaysBound(v, w.session, v.w.branchOf(w.cwd), expired);
    }
  }

  /** The worker side accepts its orchestrator's message exactly when the standing is granted: what it
      resolves from the binding of its branch is that orchestrator. */
  lemma WorkerSide(v: View, w: Entry, o: Entry, expired: bool)
    requires AtHome(v, o)
    ensures var r := Resolve(v, w.session, v.w.branchOf(w.cwd), expired);
            FromOrchestrator(v, r, Probe(o.name, Some(o.pid))) == Accepted <==> Granted(v, w, o)
  {
    AtHomeTells(v, o);
    WorkerSideByRow(v, w, o, expired);
  }

  /** The two sides agree, both ways. `w` is the worker and `o` the orchestrator, both with rows in this
      repository; the worker resolves with the branch its row shows. */
  lemma StandingAgrees(v: View, w: Entry, o: Entry, expired: bool)
    requires AtHome(v, o) && Find(v.w.snap.entries, o.session) == Some(o)
    requires AtHome(v, w) && NamedOf(v.w.snap, w.name) == [w]
    ensures var r := Resolve(v, w.session, v.w.branchOf(w.cwd), expired);
            FromWorker(v, o.session, o.name, Probe(w.name, Some(w.pid))) == Accepted
            <==> FromOrchestrator(v, r, Probe(o.name, Some(o.pid))) == Accepted
  {
    OrchestratorSide(v, w, o);
    WorkerSide(v, w, o, expired);
  }

  /** Who an accepted message came from. */
  lemma AcceptedSender(v: View, self: string, own: string, p: Probe)
    requires FromWorker(v, self, own, p) == Accepted
    ensures var w := Sender(v, p).0;
            && w.Some? && NamedOf(v.w.snap, p.fromName) == [w.value] && p.pid == Some(w.value.pid)
            && RepoRow(v, v.rows, w.value).Some? && w.value in v.w.snap.entries
            && w.value.nameOK && w.value.name == p.fromName
    ensures var o := Find(v.w.snap.entries, self);
            o.Some? && o.value in v.w.snap.entries && o.value.session == self && o.value.nameOK && o.value.name == own
  {
    var w := Sender(v, p).0.value;
    NamedExactly(v.w.snap, p.fromName, w);
    FindIsEntry(v.w.snap.entries, self);
  }

  /** What the orchestrator side accepts, the worker side accepts in return: the worker is bound to
      exactly that name, and a message carrying the orchestrator's own pid passes. Nothing is asked of
      the worker beyond that it was accepted. */
  lemma AcceptedIsReturned(v: View, self: string, own: string, p: Probe, expired: bool)
    requires Loaded(v) && DistinctPids(v.w.snap)
    requires FromWorker(v, self, own, p) == Accepted
    requires RepoRow(v, v.rows, Find(v.w.snap.entries, self).value).Some?
    ensures var w := Sender(v, p).0.value;
            var o := Find(v.w.snap.entries, self).value;
            var r := Resolve(v, w.session, v.w.branchOf(w.cwd), expired);
            && Bound(v.w, v.w.branchOf(w.cwd)) == Some(own)
            && r.source == FromBinding && r.target.Some? && r.target.value.name == own && r.target.value.session == self
            && FromOrchestrator(v, r, Probe(own, Some(o.pid))) == Accepted
  {
    AcceptedSender(v, self, own, p);
    var w := Sender(v, p).0.value;
    var o := Find(v.w.snap.entries, self).value;
    OrchestratorSide(v, w, o);
    WorkerSide(v, w, o, expired);
    TargetWhenGranted(v, w, o, expired);
  }
}
