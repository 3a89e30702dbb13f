/** The session registry: live entries, and the collapse of a parked session into its continuation. */
module Registry {
  import opened Option

  /** One live process. `nameOK`: the name is one a message can be addressed to. */
  datatype Entry = Entry(
    pid: nat, nameOK: bool, name: string, session: string, cwd: string,
    kind: string, job: string, parkedJob: string)

  /** `degraded`: some live entry could not be read. */
  datatype Snapshot = Snapshot(entries: seq<Entry>, degraded: bool)

  /** Whether the first entry was parked into the background job that runs as the second. */
  predicate Continues(parked: Entry, cont: Entry) {
    && parked.parkedJob != "" && cont.job != "" && parked.session != cont.session
    && (cont.kind == "" || cont.kind == "bg")
    && parked.parkedJob == cont.job
  }

  function Carriers(entries: seq<Entry>, name: string): seq<Entry> {
    if entries == [] then []
    else
      var last := entries[|entries| - 1];
      Carriers(entries[..|entries| - 1], name) + if last.nameOK && last.name == name then [last] else []
  }

  /** Whether some entry of `all` continues `e`. */
  ghost predicate Parked(all: seq<Entry>, e: Entry) {
    exists c :: c in all && Continues(e, c)
  }

  /** The entries of `from` that nothing in `all` continues, in order. */
  ghost function Kept(all: seq<Entry>, from: seq<Entry>): seq<Entry> {
    if from == [] then []
    else
      var last := from[|from| - 1];
      Kept(all, from[..|from| - 1]) + if Parked(all, last) then [] else [last]
  }

  ghost function NamedOf(s: Snapshot, name: string): seq<Entry> {
    var all := Carriers(s.entries, name);
    Kept(all, all)
  }

  lemma {:induction false} CarriersExactly(entries: seq<Entry>, name: string, e: Entry)
    ensures e in Carriers(entries, name) <==> e in entries && e.nameOK && e.name == name
  {
    if entries != [] {
      var front, last := entries[..|entries| - 1], entries[|entries| - 1];
      CarriersExactly(front, name, e);
      assert entries == front + [last];
    }
  }

  lemma {:induction false} KeptExactly(all: seq<Entry>, from: seq<Entry>, e: Entry)
    ensures e in Kept(all, from) <==> e in from && !Parked(all, e)
  {
    if from != [] {
      var front, last := from[..|from| - 1], from[|from| - 1];
      KeptExactly(all, front, e);
      assert from == front + [last];
    }
  }

  method IsParked(all: seq<Entry>, e: Entry) returns (parked: bool)
    ensures parked <==> Parked(all, e)
  {
    var j := 0;
    while j < |all|
      invariant 0 <= j <= |all|
      invariant forall k :: 0 <= k < j ==> !Continues(e, all[k])
    {
      if Continues(e, all[j]) { return true; }
      j := j + 1;
    }
    return false;
  }

  /** `Named`: the live entries carrying a name, with every parked one dropped. */
  method Named(s: Snapshot, name: string) returns (out: seq<Entry>)
    ensures out == NamedOf(s, name)
  {
    var all: seq<Entry> := [];
    var i := 0;
    while i < |s.entries|
      invariant 0 <= i <= |s.entries| && all == Carriers(s.entries[..i], name)
    {
      var e := s.entries[i];
      assert s.entries[..i + 1][..i] == s.entries[..i];
      if e.nameOK && e.name == name { all := all + [e]; }
      i := i + 1;
    }
    assert s.entries[..i] == s.entries;
    out := [];
    i := 0;
    while i < |all|
      invariant 0 <= i <= |all| && out == Kept(all, all[..i])
    {
      var e := all[i];
      var parked := IsParked(all, e);
      assert all[..i + 1][..i] == all[..i];
      if !parked { out := out + [e]; }
      i := i + 1;
    }
    assert all[..i] == all;
  }

  /** An entry is an address of its name exactly when it carries it and no other carrier continues it. */
  lemma NamedExactly(s: Snapshot, name: string, e: Entry)
    ensures e in NamedOf(s, name)
            <==> && e in s.entries && e.nameOK && e.name == name
                 && forall c :: c in s.entries && c.nameOK && c.name == name ==> !Continues(e, c)
  {
    var all := Carriers(s.entries, name);
    CarriersExactly(s.entries, name, e);
    KeptExactly(all, all, e);
    forall c
      ensures c in all <==> c in s.entries && c.nameOK && c.name == name
    {
      CarriersExactly(s.entries, name, c);
    }
  }

  /** Of two sessions under one name, one parked into the background job that runs as the other: exactly the
      continuation is the address of the name, whichever is listed first and whatever else either is. */
  lemma ContinuationIsTheAddress(s: Snapshot, name: string, parked: Entry, cont: Entry)
    requires forall e :: e in s.entries && e.nameOK && e.name == name <==> e == parked || e == cont
    requires parked.session != cont.session
    requires parked.parkedJob != "" && cont.job == parked.parkedJob && (cont.kind == "" || cont.kind == "bg")
    requires cont.parkedJob == "" || cont.parkedJob != parked.job
    ensures cont in NamedOf(s, name) && parked !in NamedOf(s, name)
    ensures forall e :: e in NamedOf(s, name) ==> e == cont
  {
    NamedExactly(s, name, cont);
    NamedExactly(s, name, parked);
    forall e | e in NamedOf(s, name)
      ensures e == cont
    {
      NamedExactly(s, name, e);
    }
  }

  /** Any two carriers of a name alone under it, over their fields: each is an address unless it was parked into a
      background job that the other, as another session, runs. */
  lemma PairExactly(s: Snapshot, name: string, a: Entry, b: Entry)
    requires forall e :: e in s.entries && e.nameOK && e.name == name <==> e == a || e == b
    ensures a in NamedOf(s, name)
            <==> !(a.parkedJob != "" && a.parkedJob == b.job && a.session != b.session
                   && (b.kind == "" || b.kind == "bg"))
  {
    NamedExactly(s, name, a);
  }

  // ---------------------------------------------------------------------------------------
  // Following a parked session to its continuation
  // ---------------------------------------------------------------------------------------

  ghost predicate Chain(all: seq<Entry>, path: seq<Entry>) {
    && (forall i :: 0 <= i < |path| ==> path[i] in all)
    && forall i :: 0 <= i < |path| - 1 ==> Continues(path[i], path[i + 1])
  }

  ghost predicate Acyclic(all: seq<Entry>) {
    forall path :: Chain(all, path) && |path| >= 2 ==> path[0] != path[|path| - 1]
  }

  ghost predicate LeadsTo(all: seq<Entry>, from: Entry, to: Entry) {
    exists path :: Chain(all, path) && |path| >= 1 && path[0] == from && path[|path| - 1] == to
  }

  ghost function Elements<T>(path: seq<T>): set<T> {
    set e | e in path
  }

  lemma {:induction false} DistinctCount<T>(path: seq<T>)
    requires forall i, j :: 0 <= i < j < |path| ==> path[i] != path[j]
    ensures |Elements(path)| == |path|
  {
    if path != [] {
      var front, last := path[..|path| - 1], path[|path| - 1];
      DistinctCount(front);
      assert path == front + [last] && last !in front;
      assert Elements(path) == Elements(front) + {last};
    }
  }

  lemma PieceIsChain(all: seq<Entry>, path: seq<Entry>, i: nat, j: nat)
    requires Chain(all, path) && i < j <= |path|
    ensures var piece := path[i..j];
            Chain(all, piece) && |piece| == j - i && piece[0] == path[i] && piece[|piece| - 1] == path[j - 1]
  {
    var piece := path[i..j];
    forall k | 0 <= k < |piece|
      ensures piece[k] == path[i + k] && piece[k] in all
      ensures k < |piece| - 1 ==> Continues(piece[k], piece[k + 1])
    {
      assert piece[k] == path[i + k];
      assert k < |piece| - 1 ==> piece[k + 1] == path[i + k + 1];
    }
  }

  lemma ChainIsShort(all: seq<Entry>, path: seq<Entry>)
    requires Chain(all, path) && Acyclic(all)
    ensures |path| <= |Elements(all)|
  {
    forall i, j | 0 <= i < j < |path|
      ensures path[i] != path[j]
    {
      PieceIsChain(all, path, i, j + 1);
    }
    DistinctCount(path);
    Subset(Elements(path), Elements(all));
  }

  lemma Walk(all: seq<Entry>, path: seq<Entry>)
    requires Acyclic(all) && Chain(all, path) && path != []
    ensures exists kept :: kept in all && !Parked(all, kept) && LeadsTo(all, path[0], kept)
    decreases |Elements(all)| - |path|
  {
    var last := path[|path| - 1];
    if Parked(all, last) {
      var c :| c in all && Continues(last, c);
      var longer := path + [c];
      ChainIsShort(all, longer);
      Walk(all, longer);
    } else {
      assert last in all && LeadsTo(all, path[0], last);
    }
  }

  lemma {:induction false} Subset<T>(a: set<T>, b: set<T>)
    requires a <= b
    ensures |a| <= |b|
  {
    if a != {} {
      var x :| x in a;
      Subset(a - {x}, b - {x});
    }
  }

  /** With no cycle of parked sessions, every carrier leads by continuations to an address of the name. */
  lemma EveryCarrierHasAnAddress(s: Snapshot, name: string, e: Entry)
    requires Acyclic(Carriers(s.entries, name)) && e in s.entries && e.nameOK && e.name == name
    ensures exists kept :: kept in NamedOf(s, name) && LeadsTo(Carriers(s.entries, name), e, kept)
  {
    var all := Carriers(s.entries, name);
    CarriersExactly(s.entries, name, e);
    Walk(all, [e]);
    var kept :| kept in all && !Parked(all, kept) && LeadsTo(all, e, kept);
    KeptExactly(all, all, kept);
  }

  /** However far its continuations are followed, there is always a next one. */
  ghost predicate NeverEnds(all: seq<Entry>, e: Entry) {
    forall k :: LeadsTo(all, e, k) ==> Parked(all, k)
  }

  ghost predicate InCycle(all: seq<Entry>, c: Entry) {
    exists path :: Chain(all, path) && |path| >= 2 && path[0] == c && path[|path| - 1] == c
  }

  ghost predicate RunsIntoACycle(all: seq<Entry>, e: Entry) {
    exists c :: LeadsTo(all, e, c) && InCycle(all, c)
  }

  lemma {:induction false} LongChain(all: seq<Entry>, e: Entry, n: nat) returns (path: seq<Entry>)
    requires e in all && NeverEnds(all, e)
    ensures Chain(all, path) && |path| == n + 1 && path[0] == e
  {
    if n == 0 {
      path := [e];
    } else {
      path := LongChain(all, e, n - 1);
      assert LeadsTo(all, e, path[n - 1]);
      var c :| c in all && Continues(path[n - 1], c);
      path := path + [c];
    }
  }

  /** A chain longer than the entries are many comes back to one of them. */
  lemma LongChainRepeats(all: seq<Entry>, path: seq<Entry>) returns (i: nat, j: nat)
    requires Chain(all, path) && |path| > |Elements(all)|
    ensures i < j < |path| && path[i] == path[j]
  {
    if forall i, j :: 0 <= i < j < |path| ==> path[i] != path[j] {
      DistinctCount(path);
      Subset(Elements(path), Elements(all));
      assert false;
    }
    i, j :| 0 <= i < j < |path| && path[i] == path[j];
  }

  lemma NeverEndsInACycle(all: seq<Entry>, e: Entry)
    requires e in all && NeverEnds(all, e)
    ensures RunsIntoACycle(all, e)
  {
    var path := LongChain(all, e, |Elements(all)|);
    var i, j := LongChainRepeats(all, path);
    ChainLeads(all, path, i);
    ChainCycles(all, path, i, j);
  }

  lemma ChainLeads(all: seq<Entry>, path: seq<Entry>, i: nat)
    requires Chain(all, path) && i < |path|
    ensures LeadsTo(all, path[0], path[i])
  {
    PieceIsChain(all, path, 0, i + 1);
  }

  lemma ChainCycles(all: seq<Entry>, path: seq<Entry>, i: nat, j: nat)
    requires Chain(all, path) && i < j < |path| && path[i] == path[j]
    ensures InCycle(all, path[i])
  {
    PieceIsChain(all, path, i, j + 1);
  }

  /** The carriers that have no address, one by one: a carrier leads to none exactly when its continuations
      never end, and they then run into a cycle. */
  lemma StrandedExactly(s: Snapshot, name: string, e: Entry)
    requires e in Carriers(s.entries, name)
    ensures var all := Carriers(s.entries, name);
            && (NeverEnds(all, e) <==> !exists kept :: kept in NamedOf(s, name) && LeadsTo(all, e, kept))
            && (NeverEnds(all, e) ==> RunsIntoACycle(all, e))
  {
    var all := Carriers(s.entries, name);
    forall k
      ensures k in NamedOf(s, name) <==> k in all && !Parked(all, k)
    {
      KeptExactly(all, all, k);
    }
    if NeverEnds(all, e) {
      NeverEndsInACycle(all, e);
    }
  }

  /** A name that is carried has no address exactly when the continuations of every carrier run into a cycle
      and never end. */
  lemma NoAddressExactly(s: Snapshot, name: string)
    requires Carriers(s.entries, name) != []
    ensures NamedOf(s, name) == []
            <==> forall e :: e in Carriers(s.entries, name) ==>
                   NeverEnds(Carriers(s.entries, name), e) && RunsIntoACycle(Carriers(s.entries, name), e)
  {
    var all := Carriers(s.entries, name);
    forall e | e in all
      ensures NeverEnds(all, e) <==> !exists kept :: kept in NamedOf(s, name) && LeadsTo(all, e, kept)
      ensures NeverEnds(all, e) ==> RunsIntoACycle(all, e)
    {
      StrandedExactly(s, name, e);
    }
    if NamedOf(s, name) != [] {
      var kept := NamedOf(s, name)[0];
      KeptExactly(all, all, kept);
      assert Chain(all, [kept]) && LeadsTo(all, kept, kept);
    }
  }

  /** Two sessions parked into each other's jobs: the name is carried by two live entries and has no
      address at all. */
  lemma MutualParkingHasNoAddress(name: string, a: Entry, b: Entry)
    requires a.nameOK && b.nameOK && a.name == name && b.name == name
    requires Continues(a, b) && Continues(b, a)
    ensures NamedOf(Snapshot([a, b], false), name) == []
  {
    var s := Snapshot([a, b], false);
    if NamedOf(s, name) != [] {
      var kept := NamedOf(s, name)[0];
      NamedExactly(s, name, kept);
      assert false;
    }
  }
}
