/** The terminals of a handoff, the name of their lock, and the steps of its senders: what one call does to
    the locks and when it types. */
module SendSteps {
  import opened Option

  datatype AgentState = Other | Working | Waiting

  /** A terminal as listed. `pane` is empty when the listing carries no pane key; `agent` is empty in a shell. */
  datatype Terminal = Terminal(
    handle: string, pane: string, path: string, agent: string, state: AgentState, writable: bool, connected: bool)

  const PANE_LOCK := "handoff-send-pane-"
  const HANDLE_LOCK := "handoff-send-"
  const LOCK := ".lock"

  predicate SafeChar(c: char) {
    'A' <= c <= 'Z' || 'a' <= c <= 'z' || '0' <= c <= '9' || c == '.' || c == '_' || c == '-'
  }

  function Sanitize(key: string): string {
    seq(|key|, i requires 0 <= i < |key| => if SafeChar(key[i]) then key[i] else '_')
  }

  /** A key becomes a file name: every character that is no letter, digit, dot, underscore or dash is replaced by an
      underscore, one by one, and the others stay. */
  lemma SanitizeExactly(key: string, i: nat)
    requires i < |key|
    ensures var name := Sanitize(key);
            var c := key[i];
            && |name| == |key|
            && name[i] == if 'A' <= c <= 'Z' || 'a' <= c <= 'z' || '0' <= c <= '9' || c in {'.', '_', '-'}
                          then c else '_'
  {
  }

  /** `lockName`: by pane where the record carries one, else by handle. */
  function LockName(t: Terminal): string {
    if t.pane != "" then PANE_LOCK + Sanitize(t.pane) + LOCK else HANDLE_LOCK + t.handle + LOCK
  }

  datatype Phase =
    | Start
    | Found(t: Terminal)
    | Ready(t: Terminal)    // the lock is held; the gate is next
    | Gated(t: Terminal)    // the gate passed; the send is next
    | Rejoining(t: Terminal)
    | Done

  datatype State = State(phase: map<nat, Phase>, lock: map<string, nat>)

  /** A step of one sender. `Crash`: its process dies, and the system drops its locks. */
  datatype Act =
    | Find(i: nat, target: Terminal)
    | Lock(i: nat)
    | PassGate(i: nat)
    | Type(i: nat)
    | HitStale(i: nat)
    | Rejoin(i: nat, target: Terminal)
    | Finish(i: nat)
    | Crash(i: nat)

  function PhaseOf(s: State, i: nat): Phase {
    if i in s.phase then s.phase[i] else Start
  }

  predicate HoldsLock(p: Phase) {
    p.Ready? || p.Gated? || p.Rejoining?
  }

  predicate Enabled(s: State, a: Act) {
    var p := PhaseOf(s, a.i);
    match a
    case Find(_, _) => p == Start
    case Lock(_) => p.Found? && LockName(p.t) !in s.lock
    case PassGate(_) => p.Ready?
    case Type(_) => p.Gated?
    case HitStale(_) => p.Gated?
    case Rejoin(_, u) => p.Rejoining? && p.t.pane != "" && u.pane == p.t.pane && u.handle != p.t.handle
    case Finish(_) => true
    case Crash(_) => true
  }

  function Free(lock: map<string, nat>, i: nat): map<string, nat> {
    map n | n in lock && lock[n] != i :: lock[n]
  }

  function Next(s: State, a: Act): State
    requires Enabled(s, a)
  {
    var p := PhaseOf(s, a.i);
    match a
    case Find(i, u) => s.(phase := s.phase[i := Found(u)])
    case Lock(i) => State(s.phase[i := Ready(p.t)], s.lock[LockName(p.t) := i])
    case PassGate(i) => s.(phase := s.phase[i := Gated(p.t)])
    case Type(i) => State(s.phase[i := Done], Free(s.lock, i))
    case HitStale(i) => s.(phase := s.phase[i := Rejoining(p.t)])
    case Rejoin(i, u) => s.(phase := s.phase[i := Ready(u)])
    case Finish(i) => State(s.phase[i := Done], Free(s.lock, i))
    case Crash(i) => State(s.phase[i := Done], Free(s.lock, i))
  }

  /** `acts` lead through these states, all of them steps of sender `i`. */
  ghost predicate Ran(states: seq<State>, acts: seq<Act>, i: nat) {
    && |states| == |acts| + 1
    && forall k {:trigger acts[k]} :: 0 <= k < |acts| ==>
         acts[k].i == i && Enabled(states[k], acts[k]) && states[k + 1] == Next(states[k], acts[k])
  }

  lemma OneMoreStep(states: seq<State>, acts: seq<Act>, i: nat, act: Act)
    requires Ran(states, acts, i) && act.i == i && Enabled(states[|acts|], act)
    ensures Ran(states + [Next(states[|acts|], act)], acts + [act], i)
  {
  }

  /** What was sent, in order: whether it was typed, or refused as stale. */
  ghost function Sendings(acts: seq<Act>): seq<bool> {
    if acts == [] then []
    else
      var last := acts[|acts| - 1];
      Sendings(acts[..|acts| - 1]) + if last.Type? then [true] else if last.HitStale? then [false] else []
  }

  lemma OneMoreSending(acts: seq<Act>, act: Act)
    ensures Sendings(acts + [act])
            == if act.Type? || act.HitStale? then Sendings(acts) + [act.Type?] else Sendings(acts)
  {
    assert (acts + [act])[..|acts|] == acts;
    assert Sendings(acts) + [] == Sendings(acts);
  }
}
