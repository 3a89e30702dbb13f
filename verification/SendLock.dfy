/** Several handoff senders at once: the lock of a pane is held from the gate through the send, and
    across the re-join of a stale handle. */
module SendLock {
  import opened SendSteps

  ghost predicate Run(states: seq<State>, acts: seq<Act>) {
    && |states| == |acts| + 1 && states[0] == State(map[], map[])
    && forall k :: 0 <= k < |acts| ==> Enabled(states[k], acts[k]) && states[k + 1] == Next(states[k], acts[k])
  }

  /** Whoever is past the lock holds the one of its target. */
  ghost predicate Inv(s: State) {
    forall i: nat :: HoldsLock(PhaseOf(s, i)) ==>
      LockName(PhaseOf(s, i).t) in s.lock && s.lock[LockName(PhaseOf(s, i).t)] == i
  }

  lemma SamePaneSameLock(t: Terminal, u: Terminal)
    requires t.pane == u.pane && (t.pane == "" ==> t.handle == u.handle)
    ensures LockName(t) == LockName(u)
  {
  }

  lemma StepKeepsInv(s: State, a: Act)
    requires Inv(s) && Enabled(s, a)
    ensures Inv(Next(s, a))
  {
    var t := Next(s, a);
    forall i: nat | HoldsLock(PhaseOf(t, i))
      ensures LockName(PhaseOf(t, i).t) in t.lock && t.lock[LockName(PhaseOf(t, i).t)] == i
    {
      if i != a.i {
        assert PhaseOf(t, i) == PhaseOf(s, i);
      } else if a.Rejoin? {
        SamePaneSameLock(PhaseOf(s, i).t, a.target);
      }
    }
  }

  lemma {:induction false} RunKeepsInv(states: seq<State>, acts: seq<Act>, k: nat)
    requires Run(states, acts) && k < |states|
    ensures Inv(states[k])
  {
    if k > 0 {
      RunKeepsInv(states, acts, k - 1);
      StepKeepsInv(states[k - 1], acts[k - 1]);
    }
  }

  /** The methods of a call take steps of this machine only, so they keep its invariant, and at each of them
      that types the call holds the lock of the terminal it types into. */
  lemma {:induction false} CallsKeepInv(states: seq<State>, acts: seq<Act>, i: nat, k: nat)
    requires Ran(states, acts, i) && Inv(states[0]) && k <= |acts|
    ensures Inv(states[k])
    ensures k < |acts| && acts[k].Type? ==>
              var p := PhaseOf(states[k], i);
              p.Gated? && LockName(p.t) in states[k].lock && states[k].lock[LockName(p.t)] == i
  {
    if k > 0 {
      CallsKeepInv(states, acts, i, k - 1);
      assert acts[k - 1].i == i;
      StepKeepsInv(states[k - 1], acts[k - 1]);
      assert states[k - 1 + 1] == Next(states[k - 1], acts[k - 1]);
    }
    if k < |acts| && acts[k].Type? {
      assert Enabled(states[k], acts[k]) && HoldsLock(PhaseOf(states[k], i));
    }
  }

  /** In no run does a sender type, or even pass its gate, while another is between gate and send on a
      record with the same lock. */
  lemma NeverInterleave(states: seq<State>, acts: seq<Act>, k: nat, i: nat, j: nat)
    requires Run(states, acts) && k < |states|
    requires HoldsLock(PhaseOf(states[k], i)) && HoldsLock(PhaseOf(states[k], j))
    requires LockName(PhaseOf(states[k], i).t) == LockName(PhaseOf(states[k], j).t)
    ensures i == j
  {
    RunKeepsInv(states, acts, k);
  }

  /** The record of the same terminal: by pane where both listings carry it, by handle where neither does. */
  predicate SameRecord(t: Terminal, u: Terminal) {
    if t.pane == "" && u.pane == "" then t.handle == u.handle else t.pane == u.pane
  }

  /** Two senders on one pane: the step that types is never taken while the other is between gate and
      send, stale handles and re-joins included. */
  lemma TypingIsAlone(states: seq<State>, acts: seq<Act>, k: nat, j: nat)
    requires Run(states, acts) && k < |acts| && (acts[k].Type? || acts[k].PassGate?) && j != acts[k].i
    requires PhaseOf(states[k], j).Gated? || PhaseOf(states[k], j).Ready? || PhaseOf(states[k], j).Rejoining?
    ensures !SameRecord(PhaseOf(states[k], acts[k].i).t, PhaseOf(states[k], j).t)
  {
    assert Enabled(states[k], acts[k]);
    var t, u := PhaseOf(states[k], acts[k].i).t, PhaseOf(states[k], j).t;
    if SameRecord(t, u) {
      SamePaneSameLock(t, u);
      NeverInterleave(states, acts, k, acts[k].i, j);
    }
  }

  predicate Final(a: Act) {
    a.Type? || a.Finish? || a.Crash?
  }

  ghost predicate Over(s: State, i: nat) {
    PhaseOf(s, i) == Done && forall name :: name in s.lock ==> s.lock[name] != i
  }

  lemma {:induction false} StaysOver(states: seq<State>, acts: seq<Act>, i: nat, k: nat, m: nat)
    requires Run(states, acts) && k < m <= |acts| && acts[k].i == i && Final(acts[k])
    ensures Over(states[m], i)
  {
    assert states[m - 1 + 1] == Next(states[m - 1], acts[m - 1]);
    if k + 1 < m {
      StaysOver(states, acts, i, k, m - 1);
      assert Enabled(states[m - 1], acts[m - 1]);
    }
  }

  /** Each sender types at most once, however its handle went stale; and once it has typed, refused or died it does
      nothing more and holds no lock, for the rest of the run. */
  lemma TypesOnce(states: seq<State>, acts: seq<Act>, k: nat, m: nat)
    requires Run(states, acts) && k < m < |acts| && acts[k].i == acts[m].i && Final(acts[k])
    ensures acts[m].Finish? || acts[m].Crash?
    ensures Over(states[m], acts[k].i) && Over(states[m + 1], acts[k].i)
  {
    StaysOver(states, acts, acts[k].i, k, m);
    StaysOver(states, acts, acts[k].i, k, m + 1);
    assert Enabled(states[m], acts[m]);
  }

  ghost predicate BothBetween(states: seq<State>, acts: seq<Act>, t: Terminal, u: Terminal) {
    && Run(states, acts)
    && PhaseOf(states[|acts|], 0) == Gated(t) && PhaseOf(states[|acts|], 1) == Gated(u)
  }

  /** Both find their record, lock it under different names, and pass the gate. */
  function Meeting(t: Terminal, u: Terminal, k: nat): State {
    var both := map[LockName(t) := 0, LockName(u) := 1];
    if k == 0 then State(map[], map[])
    else if k == 1 then State(map[0 := Found(t)], map[])
    else if k == 2 then State(map[0 := Found(t), 1 := Found(u)], map[])
    else if k == 3 then State(map[0 := Ready(t), 1 := Found(u)], map[LockName(t) := 0])
    else if k == 4 then State(map[0 := Ready(t), 1 := Ready(u)], both)
    else if k == 5 then State(map[0 := Gated(t), 1 := Ready(u)], both)
    else State(map[0 := Gated(t), 1 := Gated(u)], both)
  }

  function MeetingAct(t: Terminal, u: Terminal, k: nat): Act {
    if k == 0 then Find(0, t) else if k == 1 then Find(1, u)
    else if k < 4 then Lock(k - 2) else PassGate(if k == 4 then 0 else 1)
  }

  lemma MeetingFinds(t: Terminal, u: Terminal, k: nat)
    requires k < 2
    ensures Enabled(Meeting(t, u, k), MeetingAct(t, u, k))
    ensures Meeting(t, u, k + 1) == Next(Meeting(t, u, k), MeetingAct(t, u, k))
  {
  }

  lemma MeetingLocks(t: Terminal, u: Terminal, k: nat)
    requires LockName(t) != LockName(u) && 2 <= k < 4
    ensures Enabled(Meeting(t, u, k), MeetingAct(t, u, k))
    ensures Meeting(t, u, k + 1) == Next(Meeting(t, u, k), MeetingAct(t, u, k))
  {
  }

  lemma MeetingGates(t: Terminal, u: Terminal, k: nat)
    requires 4 <= k < 6
    ensures Enabled(Meeting(t, u, k), MeetingAct(t, u, k))
    ensures Meeting(t, u, k + 1) == Next(Meeting(t, u, k), MeetingAct(t, u, k))
  {
  }

  lemma ApartCanMeet(t: Terminal, u: Terminal)
    requires LockName(t) != LockName(u)
    ensures exists states, acts :: BothBetween(states, acts, t, u)
  {
    var states := seq(7, k requires 0 <= k => Meeting(t, u, k));
    var acts := seq(6, k requires 0 <= k => MeetingAct(t, u, k));
    forall k | 0 <= k < 6
      ensures Enabled(states[k], acts[k]) && states[k + 1] == Next(states[k], acts[k])
    {
      if k < 2 {
        MeetingFinds(t, u, k);
      } else if k < 4 {
        MeetingLocks(t, u, k);
      } else {
        MeetingGates(t, u, k);
      }
    }
    assert BothBetween(states, acts, t, u);
  }

  /** Two records can be between gate and send at once exactly when their lock names differ. */
  lemma ApartExactly(t: Terminal, u: Terminal)
    ensures (exists states, acts :: BothBetween(states, acts, t, u)) <==> LockName(t) != LockName(u)
  {
    if LockName(t) != LockName(u) {
      ApartCanMeet(t, u);
    }
    if states, acts :| BothBetween(states, acts, t, u) {
      if LockName(t) == LockName(u) {
        NeverInterleave(states, acts, |acts|, 0, 1);
        assert false;
      }
    }
  }

  /** So one terminal listed once with its pane key and once without is not protected: same handle, two
      locks, whenever handles do not look like `pane-...`. */
  lemma MissingPaneKeySplitsTheLock(t: Terminal, u: Terminal)
    requires t.handle == u.handle && t.pane != "" && u.pane == ""
    requires u.handle != [] && u.handle[0] != 'p'
    ensures LockName(t) != LockName(u)
  {
    var n := |HANDLE_LOCK|;
    assert LockName(t)[n] == 'p';
    assert LockName(u)[n] == u.handle[0];
  }
}
