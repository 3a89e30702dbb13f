/** `lets handoff send`: a one-line pointer typed into an agent's terminal at most once. The terminal
    manager answers every question as it likes, and differently each time. */
module Handoff {
  import opened Option
  import opened SendSteps
  import opened Text

  datatype Frame = Frame(draft: string, isScreen: bool, lines: seq<string>)

  datatype InputLine = Clear | Unknown | Busy | NotClear

  /** How a send was answered. `Stale`: the handle was refused before anything was typed. */
  datatype Answer = Stale | Fault | Receipt(started: bool, accepted: bool)

  datatype Event =
    | Listed(terms: seq<Terminal>)
    | Locked(name: string)
    | Looked(seen: string, frame: Option<Frame>)
    | Sent(handle: string, text: string, answer: Answer)
    | Released(freed: string)

  datatype Delivery = Proven | Unproven | Failed | Skipped

  datatype Why =
    | NoReason | Unavailable | BriefInvalid | Usage | CreateFailed | StartupNotIdle
    | ListFailed | NotFound | IsSelf | OtherCheckout | NotWritable | NotAnAgent
    | LockBusy | TargetBusy | LineNotClear | HandleStale | Faulty | NotConfirmed | NotAccepted

  /** What one call works with: where it runs, its own terminal, the text, and a screen recognizer. */
  datatype Call = Call(root: string, self: string, pointer: string, recognize: (string, seq<string>) -> InputLine)

  /** `ineligible` */
  function Ineligible(t: Terminal, c: Call): Why {
    if t.handle == c.self then IsSelf
    else if t.path != c.root then OtherCheckout
    else if !t.writable || !t.connected then NotWritable
    else if t.agent == "" then NotAnAgent
    else NoReason
  }

  /** Why a terminal is no target, each reason exactly when; none exactly when it is another one of this checkout,
      writable, connected, with an agent in it. */
  lemma IneligibleExactly(t: Terminal, c: Call)
    ensures var why := Ineligible(t, c);
            && (why == IsSelf <==> t.handle == c.self)
            && (why == OtherCheckout <==> t.handle != c.self && t.path != c.root)
            && (why == NotWritable <==> t.handle != c.self && t.path == c.root && !(t.writable && t.connected))
            && (why == NotAnAgent
                <==> t.handle != c.self && t.path == c.root && t.writable && t.connected && t.agent == "")
            && (why == NoReason
                <==> t.handle != c.self && t.path == c.root && t.writable && t.connected && t.agent != "")
  {
  }

  /** Orca says the agent is at work, or a recognizer sees it so. */
  ghost predicate BusyNow(c: Call, t: Terminal, frame: Option<Frame>) {
    t.state != Other || (frame.Some? && TrimSpace(frame.value.draft) == "" && frame.value.isScreen
                         && c.recognize(t.agent, frame.value.lines) == Busy)
  }

  /** The agent waits, and text already lies in its input line: a draft, or what a recognizer sees. */
  ghost predicate Held(c: Call, t: Terminal, frame: Option<Frame>) {
    t.state == Other && frame.Some?
    && (TrimSpace(frame.value.draft) != ""
        || (frame.value.isScreen && c.recognize(t.agent, frame.value.lines) == NotClear))
  }

  /** Positive evidence against typing: a busy agent, a held draft, or a line the recognizer can read. */
  ghost predicate Open(c: Call, t: Terminal, frame: Option<Frame>) {
    && t.state == Other
    && (frame.Some? ==> && TrimSpace(frame.value.draft) == ""
                        && (frame.value.isScreen ==> c.recognize(t.agent, frame.value.lines) !in {Busy, NotClear}))
  }

  // ---------------------------------------------------------------------------------------
  // What a log of one call must look like
  // ---------------------------------------------------------------------------------------

  ghost function LastListing(log: seq<Event>): seq<Terminal> {
    if log == [] then []
    else if log[|log| - 1].Listed? then log[|log| - 1].terms
    else LastListing(log[..|log| - 1])
  }

  ghost function Holding(log: seq<Event>): Option<string> {
    if log == [] then None
    else match log[|log| - 1]
      case Locked(name) => Some(name)
      case Released(_) => None
      case _ => Holding(log[..|log| - 1])
  }

  ghost function Sends(log: seq<Event>): (sends: seq<Event>)
    ensures AllSent(sends)
  {
    if log == [] then []
    else
      var last := log[|log| - 1];
      Sends(log[..|log| - 1]) + if last.Sent? then [last] else []
  }

  /** The text goes into a terminal the latest listing shows, of this checkout and with an agent in it,
      under the lock of its pane, right after a look that found nothing against it. */
  ghost predicate Proper(c: Call, before: seq<Event>, e: Event)
    requires e.Sent?
  {
    && before != [] && before[|before| - 1].Looked? && before[|before| - 1].seen == e.handle
    && e.text == c.pointer
    && exists t :: && t in LastListing(before) && t.handle == e.handle && Ineligible(t, c) == NoReason
                   && Open(c, t, before[|before| - 1].frame) && Holding(before) == Some(LockName(t))
  }

  ghost predicate AllProper(c: Call, log: seq<Event>) {
    forall k :: 0 <= k < |log| && log[k].Sent? ==> Proper(c, log[..k], log[k])
  }

  predicate AllSent(s: seq<Event>) {
    forall i :: 0 <= i < |s| ==> s[i].Sent?
  }

  predicate Once(s: seq<Event>)
    requires AllSent(s)
  {
    |s| <= 2 && (|s| == 2 ==> s[0].answer == Stale && s[0].handle != s[1].handle)
  }

  /** At most one send gets past the handle check; a second one follows only a stale first, elsewhere. */
  ghost predicate AtMostOnce(log: seq<Event>) {
    Once(Sends(log))
  }

  lemma ProperGrows(c: Call, log: seq<Event>, e: Event)
    requires AllProper(c, log) && (e.Sent? ==> Proper(c, log, e))
    ensures AllProper(c, log + [e])
  {
    var longer := log + [e];
    forall k | 0 <= k < |longer| && longer[k].Sent?
      ensures Proper(c, longer[..k], longer[k])
    {
      assert longer[..k] == log[..k];
      assert k == |log| ==> log[..k] == log;
    }
  }

  lemma Append(log: seq<Event>, e: Event)
    ensures LastListing(log + [e]) == if e.Listed? then e.terms else LastListing(log)
    ensures Holding(log + [e]) == (match e case Locked(n) => Some(n) case Released(_) => None case _ => Holding(log))
    ensures Sends(log + [e]) == if e.Sent? then Sends(log) + [e] else Sends(log)
  {
    assert (log + [e])[..|log|] == log;
    assert Sends(log) + [] == Sends(log);
  }

  predicate Tells(s: seq<Event>, delivery: Delivery)
    requires AllSent(s)
  {
    && (delivery == Proven <==> s != [] && s[|s| - 1].answer.Receipt? && s[|s| - 1].answer.started)
    && (delivery == Unproven
        <==> s != [] && s[|s| - 1].answer.Receipt? && !s[|s| - 1].answer.started && s[|s| - 1].answer.accepted)
    && (delivery == Skipped ==> forall e :: e in s ==> e.answer == Stale)
    && (delivery == Failed ==> s != [])
  }

  /** The outcome tells what happened to the text. */
  ghost predicate Reported(log: seq<Event>, delivery: Delivery) {
    Tells(Sends(log), delivery)
  }

  /** What an answer is reported as: a started turn is proof, an accepted input is none, everything else failed. */
  predicate JudgedAs(a: Answer, delivery: Delivery, why: Why) {
    && (delivery == Proven <==> a.Receipt? && a.started)
    && (delivery == Unproven <==> a.Receipt? && !a.started && a.accepted)
    && delivery != Skipped
    && (why == NoReason <==> a.Receipt? && a.started)
    && (why == NotConfirmed <==> a.Receipt? && !a.started && a.accepted)
    && (why == NotAccepted <==> a.Receipt? && !a.started && !a.accepted)
    && (why == Faulty <==> a == Fault)
    && (why == HandleStale <==> a == Stale)
  }

  lemma JudgedExactly(a: Answer)
    ensures JudgedAs(a, Judged(a).0, Judged(a).1)
  {
  }

  /** What the gate says of a terminal and the frame it was shown. */
  ghost predicate GateSays(c: Call, t: Terminal, frame: Option<Frame>, why: Why) {
    && (why == TargetBusy <==> BusyNow(c, t, frame))
    && (why == LineNotClear <==> Held(c, t, frame))
    && why in {NoReason, TargetBusy, LineNotClear}
  }

  predicate SamePane(t: Terminal, was: Terminal) {
    t.pane == was.pane && t.handle != was.handle
  }

  /** What looking for the pane's new terminal gives: the first of the listing, if there is one. */
  ghost predicate RejoinSays(was: Terminal, terms: Option<seq<Terminal>>, next: Terminal, why: Why) {
    && (why == ListFailed <==> was.pane != "" && terms == None)
    && (why == NoReason
        <==> was.pane != "" && terms.Some? && exists i :: 0 <= i < |terms.value| && SamePane(terms.value[i], was))
    && why in {NoReason, ListFailed, HandleStale}
    && (why == NoReason ==>
          exists i :: 0 <= i < |terms.value| && terms.value[i] == next && SamePane(next, was)
                      && forall j :: 0 <= j < i ==> !SamePane(terms.value[j], was))
  }

  // ---------------------------------------------------------------------------------------
  // Finding the terminal
  // ---------------------------------------------------------------------------------------

  /** The record of a handle in a listing: the last one. */
  ghost predicate RecordAt(terms: seq<Terminal>, handle: string, j: nat) {
    j < |terms| && terms[j].handle == handle && forall l :: j < l < |terms| ==> terms[l].handle != handle
  }

  ghost predicate Shows(e: Event, handle: string) {
    e.Listed? && exists j: nat :: RecordAt(e.terms, handle, j)
  }

  /** The listing shows the handle with an agent named. */
  ghost predicate Names(e: Event, handle: string) {
    e.Listed? && exists j: nat :: RecordAt(e.terms, handle, j) && e.terms[j].agent != ""
  }

  ghost predicate IsRecord(e: Event, handle: string, t: Terminal) {
    e.Listed? && exists j: nat :: RecordAt(e.terms, handle, j) && e.terms[j] == t
  }

  /** None of the listings names the agent, and `t` is the record of the latest that shows the handle. */
  ghost predicate LookedFor(handle: string, ls: seq<Event>, found: bool, t: Terminal) {
    && (forall k :: 0 <= k < |ls| ==> ls[k].Listed? && !Names(ls[k], handle))
    && (found <==> exists k :: 0 <= k < |ls| && Shows(ls[k], handle))
    && (found ==> exists k: nat :: LatestAt(handle, ls, k, t))
    && t.handle == handle && t.agent == ""
  }

  ghost predicate LatestAt(handle: string, ls: seq<Event>, k: nat, t: Terminal) {
    k < |ls| && IsRecord(ls[k], handle, t) && forall l :: k < l < |ls| ==> !Shows(ls[l], handle)
  }

  /** What looking for a terminal gives after the listings `ls`, of at most `tries`: `next` is what the next listing
      would say. It ends with the first listing that names the agent; otherwise it takes them all. */
  ghost predicate FoundIn(handle: string, tries: nat, ls: seq<Event>, next: Option<seq<Terminal>>, t: Terminal,
                          why: Why)
  {
    if ls != [] && Names(ls[|ls| - 1], handle) then
      && why == NoReason && IsRecord(ls[|ls| - 1], handle, t) && t.agent != ""
      && |ls| <= tries && LookedForBefore(handle, ls[..|ls| - 1])
    else
      && |ls| <= tries && (|ls| < tries ==> next == None)
      && exists found, rec ::
           && LookedFor(handle, ls, found, rec)
           && why == (if |ls| < tries then ListFailed else if found then NoReason else NotFound)
           && (why == NoReason ==> t == rec)
  }

  ghost predicate LookedForBefore(handle: string, ls: seq<Event>) {
    forall k :: 0 <= k < |ls| ==> ls[k].Listed? && !Names(ls[k], handle)
  }

  /** One more listing that does not name the agent. */
  lemma LookedForMore(handle: string, ls: seq<Event>, found: bool, t: Terminal, e: Event, found': bool, t': Terminal)
    requires LookedFor(handle, ls, found, t) && e.Listed? && !Names(e, handle)
    requires if Shows(e, handle) then found' && IsRecord(e, handle, t') else found' == found && t' == t
    ensures LookedFor(handle, ls + [e], found', t')
  {
    var more := ls + [e];
    assert forall k :: 0 <= k < |ls| ==> more[k] == ls[k];
    assert more[|ls|] == e;
    if Shows(e, handle) {
      var j: nat :| RecordAt(e.terms, handle, j) && e.terms[j] == t';
      assert LatestAt(handle, more, |ls|, t');
    } else if found {
      var k: nat :| LatestAt(handle, ls, k, t);
      assert LatestAt(handle, more, k, t);
    }
  }

  lemma FoundAtEnd(handle: string, tries: nat, ls: seq<Event>, next: Option<seq<Terminal>>, found: bool, t: Terminal)
    requires LookedFor(handle, ls, found, t) && |ls| <= tries && (|ls| < tries ==> next == None)
    ensures FoundIn(handle, tries, ls, next, t,
                    if |ls| < tries then ListFailed else if found then NoReason else NotFound)
  {
  }

  lemma FoundNamed(handle: string, tries: nat, ls: seq<Event>, e: Event, next: Option<seq<Terminal>>, found: bool,
                   was: Terminal, t: Terminal)
    requires LookedFor(handle, ls, found, was) && |ls| < tries
    requires Names(e, handle) && IsRecord(e, handle, t) && t.agent != ""
    ensures FoundIn(handle, tries, ls + [e], next, t, NoReason)
  {
    assert (ls + [e])[..|ls|] == ls;
  }

  /** One listing is read for the record of a handle. */
  method ReadRecord(terms: seq<Terminal>, handle: string, was: Terminal, before: bool)
    returns (rec: Terminal, found: bool)
    ensures if exists j: nat :: RecordAt(terms, handle, j)
            then found && exists j: nat :: RecordAt(terms, handle, j) && rec == terms[j]
            else rec == was && found == before
  {
    rec, found := was, before;
    var j := 0;
    ghost var at: nat := 0;
    ghost var some := false;
    while j < |terms|
      invariant 0 <= j <= |terms|
      invariant if some then found && at < j && terms[at].handle == handle && rec == terms[at]
                             && forall l :: at < l < j ==> terms[l].handle != handle
                else rec == was && found == before && forall l :: 0 <= l < j ==> terms[l].handle != handle
    {
      if terms[j].handle == handle {
        rec, found := terms[j], true;
        at, some := j, true;
      }
      j := j + 1;
    }
    if some {
      assert RecordAt(terms, handle, at);
    }
  }

  lemma OneRecord(terms: seq<Terminal>, handle: string, i: nat, j: nat)
    requires RecordAt(terms, handle, i) && RecordAt(terms, handle, j)
    ensures i == j
  {
  }

  /** What the last answer is reported as. */
  function Judged(a: Answer): (Delivery, Why) {
    match a
    case Stale => (Failed, HandleStale)
    case Fault => (Failed, Faulty)
    case Receipt(started, accepted) =>
      if started then (Proven, NoReason) else if accepted then (Unproven, NotConfirmed) else (Failed, NotAccepted)
  }

  lemma JudgedTells(s: seq<Event>)
    requires s != [] && AllSent(s) && Once(s)
    ensures Tells(s, Judged(s[|s| - 1].answer).0)
    ensures var (delivery, why) := Judged(s[|s| - 1].answer); delivery == Proven <==> why == NoReason
  {
  }

  // ---------------------------------------------------------------------------------------
  // The call
  // ---------------------------------------------------------------------------------------

  /** The terminal manager and the lock directory during one call. Every answer may depend on how much
      has happened before. */
  ghost function Typed(sends: seq<Event>): seq<bool>
    requires AllSent(sends)
  {
    seq(|sends|, i requires 0 <= i < |sends| => sends[i].answer != Stale)
  }

  lemma NoneTyped(before: seq<bool>)
    ensures before + Typed([]) == before
  {
  }

  lemma OneMoreTyped(before: seq<bool>, sends: seq<Event>, e: Event)
    requires e.Sent? && AllSent(sends)
    ensures before + Typed(sends + [e]) == before + Typed(sends) + [e.answer != Stale]
  {
    assert Typed(sends + [e]) == Typed(sends) + [e.answer != Stale];
  }

  class Ops {
    const list: nat -> Option<seq<Terminal>>
    const screen: nat -> Option<Frame>
    const answer: nat -> Answer
    const lockFree: (nat, string) -> bool
    var log: seq<Event>
    ghost const me: nat        // this sender, among all
    ghost var st: State           // the machine it is a part of
    ghost var trail: seq<State>   // the states since the call began
    ghost var acts: seq<Act>      // its steps through them

    constructor (list: nat -> Option<seq<Terminal>>, screen: nat -> Option<Frame>, answer: nat -> Answer,
                 lockFree: (nat, string) -> bool, ghost me: nat, ghost s: State)
      ensures log == [] && this.me == me && st == s && trail == [s] && acts == [] && this.lockFree == lockFree
    {
      this.list, this.screen, this.answer, this.lockFree := list, screen, answer, lockFree;
      log := [];
      this.me, st, trail, acts := me, s, [s], [];
    }

    ghost predicate Running()
      reads this
    {
      Ran(trail, acts, me) && trail[|acts|] == st
    }

    /** The sendings of the machine since `before` are the sends of the log. */
    ghost predicate Accounted(before: seq<bool>)
      reads this
    {
      Sendings(acts) == before + Typed(Sends(log))
    }

    ghost function Where(): Phase
      reads this
    {
      PhaseOf(st, me)
    }

    /** One step of this sender. */
    ghost method Take(act: Act)
      requires Running() && act.i == me && Enabled(st, act)
      modifies this`st, this`trail, this`acts
      ensures Running() && st == Next(old(st), act) && acts == old(acts) + [act] && old(trail) <= trail
      ensures Sendings(acts)
              == if act.Type? || act.HitStale? then old(Sendings(acts)) + [act.Type?] else old(Sendings(acts))
    {
      OneMoreStep(trail, acts, me, act);
      OneMoreSending(acts, act);
      st := Next(st, act);
      trail := trail + [st];
      acts := acts + [act];
    }

    /** Nothing was sent, and no lock is held. */
    ghost predicate Quiet(c: Call)
      reads this
    {
      AllProper(c, log) && Sends(log) == [] && Holding(log) == None
    }

    ghost method TakeFind(t: Terminal)
      requires Running() && Where() == Start
      modifies this`st, this`trail, this`acts
      ensures Running() && Where() == Found(t) && st.lock == old(st.lock) && Sendings(acts) == old(Sendings(acts))
    {
      Take(Find(me, t));
    }

    ghost method TakeRejoin(was: Terminal, t: Terminal)
      requires Running() && Where() == Rejoining(was) && was.pane != "" && t.pane == was.pane && t.handle != was.handle
      modifies this`st, this`trail, this`acts
      ensures Running() && Where() == Ready(t) && st.lock == old(st.lock) && Sendings(acts) == old(Sendings(acts))
    {
      Take(Act.Rejoin(me, t));
    }

    ghost method TakeLock(t: Terminal)
      requires Running() && Where() == Found(t) && LockName(t) !in st.lock
      modifies this`st, this`trail, this`acts
      ensures Running() && Where() == Ready(t) && st.lock == old(st.lock)[LockName(t) := me]
      ensures Sendings(acts) == old(Sendings(acts))
    {
      Take(Lock(me));
    }

    ghost method TakeGate(t: Terminal)
      requires Running() && Where() == Ready(t)
      modifies this`st, this`trail, this`acts
      ensures Running() && Where() == Gated(t) && st.lock == old(st.lock) && Sendings(acts) == old(Sendings(acts))
    {
      Take(PassGate(me));
    }

    ghost method TakeAnswer(t: Terminal, a: Answer)
      requires Running() && Where() == Gated(t)
      modifies this`st, this`trail, this`acts
      ensures Running() && (if a == Stale then Where() == Rejoining(t) && st.lock == old(st.lock) else Where() == Done)
      ensures a != Stale ==> st.lock == Free(old(st.lock), me)
      ensures Sendings(acts) == old(Sendings(acts)) + [a != Stale]
    {
      if a == Stale {
        Take(HitStale(me));
      } else {
        Take(Type(me));
      }
    }

    ghost method TakeEnd()
      requires Running()
      modifies this`st, this`trail, this`acts
      ensures Running() && st.lock == Free(old(st.lock), me) && Sendings(acts) == old(Sendings(acts))
    {
      Take(Finish(me));
    }

    method Record(c: Call, e: Event)
      requires AllProper(c, log) && (e.Sent? ==> Proper(c, log, e))
      modifies this`log
      ensures log == old(log) + [e] && AllProper(c, log)
      ensures LastListing(log) == if e.Listed? then e.terms else old(LastListing(log))
      ensures Holding(log) == match e case Locked(n) => Some(n) case Released(_) => None case _ => old(Holding(log))
      ensures Sends(log) == if e.Sent? then old(Sends(log)) + [e] else old(Sends(log))
    {
      ProperGrows(c, log, e);
      Append(log, e);
      log := log + [e];
    }

    method Terminals(c: Call) returns (terms: Option<seq<Terminal>>)
      requires AllProper(c, log)
      modifies this`log
      ensures AllProper(c, log) && Sends(log) == old(Sends(log)) && Holding(log) == old(Holding(log))
      ensures terms.Some? ==> LastListing(log) == terms.value
      ensures terms == old(list(|log|)) && log == if terms.Some? then old(log) + [Listed(terms.value)] else old(log)
    {
      terms := list(|log|);
      if terms.Some? { Record(c, Listed(terms.value)); }
    }

    /** One listing, read for the record of the handle; `e` is `None` when it failed. */
    method ReadListing(c: Call, handle: string, was: Terminal, before: bool)
      returns (rec: Terminal, found: bool, e: Option<Event>)
      requires Quiet(c) && was.handle == handle && was.agent == ""
      modifies this`log
      ensures Quiet(c) && rec.handle == handle
      ensures match list(|old(log)|)
              case None => e == None && log == old(log) && rec == was && found == before
              case Some(terms) => e == Some(Listed(terms)) && log == old(log) + [e.value] && LastListing(log) == terms
      ensures e.Some? ==> if Shows(e.value, handle) then found && IsRecord(e.value, handle, rec)
                          else rec == was && found == before
      ensures e.Some? ==> (Names(e.value, handle) <==> rec.agent != "") && (rec.agent != "" ==> rec in e.value.terms)
    {
      var terms := Terminals(c);
      if terms.None? { return was, before, None; }
      rec, found := ReadRecord(terms.value, handle, was, before);
      RecordNames(handle, terms.value, rec, was, before);
      e := Some(Listed(terms.value));
    }

    /** `findTarget`: the record of the latest listing that shows the handle, looked for until one names its agent;
        a new tab is given five listings, another terminal one. */
    method FindTarget(c: Call, handle: string, newTab: bool) returns (t: Terminal, why: Why)
      requires Quiet(c)
      modifies this`log
      ensures Quiet(c)
      ensures why == NoReason && t.agent != "" ==> t in LastListing(log)
      ensures why == NoReason ==> t.handle == handle
      ensures Answered(old(log), log)
      ensures FoundIn(handle, if newTab then 5 else 1, log[|old(log)|..], list(|log|), t, why)
    {
      var tries := if newTab then 5 else 1;
      ghost var ls: seq<Event>;
      t, why, ls := LookFor(c, handle, tries);
      assert log[|old(log)|..] == ls;
    }

    /** The listings `ls` since `start` have not named the agent. */
    ghost predicate Looking(start: seq<Event>, handle: string, ls: seq<Event>, found: bool, rec: Terminal)
      reads this
    {
      log == start + ls && Answered(start, log) && LookedFor(handle, ls, found, rec)
    }

    /** And the look ends with them. */
    ghost predicate Ended(start: seq<Event>, handle: string, tries: nat, ls: seq<Event>, rec: Terminal, why: Why)
      reads this
    {
      && log == start + ls && Answered(start, log) && FoundIn(handle, tries, ls, list(|log|), rec, why)
      && (why == NoReason ==> rec.handle == handle && (rec.agent != "" ==> rec in LastListing(log)))
    }

    method LookFor(c: Call, handle: string, tries: nat) returns (rec: Terminal, why: Why, ghost ls: seq<Event>)
      requires Quiet(c)
      modifies this`log
      ensures Quiet(c) && Ended(old(log), handle, tries, ls, rec, why)
    {
      rec := Terminal(handle, "", "", "", Other, false, false);
      var found := false;
      var i := 0;
      ls := [];
      assert log + ls == log;
      while i < tries
        invariant 0 <= i <= tries && Quiet(c) && |ls| == i
        invariant Looking(old(log), handle, ls, found, rec)
      {
        var end;
        rec, found, end, ls := LookOnce(c, handle, tries, rec, found, old(log), ls);
        if end.Some? { return rec, end.value, ls; }
        i := i + 1;
      }
      FoundAtEnd(handle, tries, ls, list(|log|), found, rec);
      why := if found then NoReason else NotFound;
    }

    /** One round: it ends the look when the listing fails or names the agent. */
    method LookOnce(c: Call, handle: string, tries: nat, was: Terminal, before: bool, ghost start: seq<Event>,
                    ghost ls: seq<Event>)
      returns (rec: Terminal, found: bool, end: Option<Why>, ghost more: seq<Event>)
      requires Quiet(c) && Looking(start, handle, ls, before, was) && |ls| < tries
      modifies this`log
      ensures Quiet(c)
      ensures match end
              case None => Looking(start, handle, more, found, rec) && |more| == |ls| + 1
              case Some(why) => Ended(start, handle, tries, more, rec, why)
    {
      var e;
      rec, found, e := ReadListing(c, handle, was, before);
      if e.None? {
        FoundAtEnd(handle, tries, ls, list(|log|), before, was);
        return rec, found, Some(ListFailed), ls;
      }
      AnsweredMore(start, old(log), e.value.terms);
      more := ls + [e.value];
      assert log == start + more;
      if found && rec.agent != "" {
        FoundNamed(handle, tries, ls, e.value, list(|log|), before, was, rec);
        return rec, found, Some(NoReason), more;
      }
      LookedForMore(handle, ls, before, was, e.value, found, rec);
      end := None;
    }

    /** The listings in the log are what was answered. */
    ghost predicate Answered(before: seq<Event>, after: seq<Event>)
    {
      && before <= after
      && forall k :: |before| <= k < |after| ==> after[k].Listed? && list(k) == Some(after[k].terms)
    }

    lemma AnsweredMore(before: seq<Event>, after: seq<Event>, terms: seq<Terminal>)
      requires Answered(before, after) && list(|after|) == Some(terms)
      ensures Answered(before, after + [Listed(terms)])
    {
    }

    static lemma RecordNames(handle: string, terms: seq<Terminal>, rec: Terminal, was: Terminal, before: bool)
      requires was.agent == "" && was.handle == handle
      requires if exists j: nat :: RecordAt(terms, handle, j)
               then exists j: nat :: RecordAt(terms, handle, j) && rec == terms[j] else rec == was
      ensures Names(Listed(terms), handle) <==> rec.agent != ""
      ensures Shows(Listed(terms), handle) ==> IsRecord(Listed(terms), handle, rec)
      ensures rec.agent != "" ==> rec in terms
      ensures rec.handle == handle
    {
      if j: nat :| RecordAt(terms, handle, j) && rec == terms[j] {
        forall i: nat | RecordAt(terms, handle, i)
          ensures i == j
        {
          OneRecord(terms, handle, i, j);
        }
      }
    }

    /** `gate` */
    method Gate(c: Call, t: Terminal) returns (why: Why)
      requires AllProper(c, log)
      modifies this`log
      ensures AllProper(c, log) && Sends(log) == old(Sends(log)) && Holding(log) == old(Holding(log))
      ensures LastListing(log) == old(LastListing(log))
      ensures why == NoReason ==> && log != [] && log[|log| - 1].Looked? && log[|log| - 1].seen == t.handle
                                  && Open(c, t, log[|log| - 1].frame)
      ensures log == old(log) + if t.state == Other then [Looked(t.handle, screen(|old(log)|))] else []
      ensures GateSays(c, t, screen(|old(log)|), why)
    {
      if t.state == Working || t.state == Waiting { return TargetBusy; }
      var line := Unknown;
      var fr := screen(|log|);
      Record(c, Looked(t.handle, fr));
      if fr.Some? {
        if TrimSpace(fr.value.draft) != "" {
          line := NotClear;
        } else if fr.value.isScreen {
          line := c.recognize(t.agent, fr.value.lines);
        }
      }
      match line {
        case Busy => return TargetBusy;
        case NotClear => return LineNotClear;
        case _ => return NoReason;
      }
    }

    static method FirstOfPane(terms: seq<Terminal>, was: Terminal) returns (first: Option<nat>)
      ensures first == None <==> forall j :: 0 <= j < |terms| ==> !SamePane(terms[j], was)
      ensures first.Some? ==> first.value < |terms| && SamePane(terms[first.value], was)
                              && forall j :: 0 <= j < first.value ==> !SamePane(terms[j], was)
    {
      for i := 0 to |terms|
        invariant forall j :: 0 <= j < i ==> !SamePane(terms[j], was)
      {
        if terms[i].pane == was.pane && terms[i].handle != was.handle { return Some(i); }
      }
      return None;
    }

    /** `rejoin`: the first terminal of the new listing that holds the same pane under another handle. */
    method Rejoin(c: Call, was: Terminal) returns (next: Terminal, why: Why)
      requires AllProper(c, log)
      modifies this`log
      ensures AllProper(c, log) && Sends(log) == old(Sends(log)) && Holding(log) == old(Holding(log))
      ensures why == NoReason ==> && next in LastListing(log) && next.handle != was.handle && was.pane != ""
                                  && next.pane == was.pane && LockName(next) == LockName(was)
      ensures RejoinSays(was, list(|old(log)|), next, why)
      ensures log == old(log) + if was.pane != "" && list(|old(log)|).Some?
                                then [Listed(list(|old(log)|).value)] else []
    {
      if was.pane == "" { return was, HandleStale; }
      var terms := Terminals(c);
      if terms.None? { return was, ListFailed; }
      var i := FirstOfPane(terms.value, was);
      if i.Some? { return terms.value[i.value], NoReason; }
      return was, HandleStale;
    }

    /** An attempt that begins after `n` events and is not followed by another: what the screen then shows can refuse
        it, which skips; otherwise the answer is reported as what it is. */
    ghost predicate EndsAs(c: Call, t: Terminal, n: nat, delivery: Delivery, why: Why)
    {
      var frame := screen(n);
      if BusyNow(c, t, frame) then delivery == Skipped && why == TargetBusy
      else if Held(c, t, frame) then delivery == Skipped && why == LineNotClear
      else JudgedAs(answer(n + 1), delivery, why)
    }

    /** The course under the lock: one attempt, unless it typed nothing because the handle was stale. */
    ghost predicate LockedSays(c: Call, t: Terminal, n: nat, delivery: Delivery, why: Why)
    {
      if BusyNow(c, t, screen(n)) || Held(c, t, screen(n)) || answer(n + 1) != Stale
      then EndsAs(c, t, n, delivery, why)
      else AgainSays(c, t, n + 2, delivery, why)
    }

    /** And after a stale handle: without an eligible terminal of the same pane the delivery failed; with one there
        is a second attempt, and no third. */
    ghost predicate AgainSays(c: Call, was: Terminal, n: nat, delivery: Delivery, why: Why)
    {
      exists next, w ::
        && NextSays(c, was, n, next, w)
        && if w != NoReason then delivery == Failed && why == w else EndsAs(c, next, n + 1, delivery, why)
    }

    ghost predicate NextSays(c: Call, was: Terminal, n: nat, next: Terminal, w: Why)
    {
      exists r :: RejoinSays(was, list(n), next, r) && w == if r == NoReason then Ineligible(next, c) else r
    }

    method SendText(c: Call, ghost t: Terminal, handle: string) returns (a: Answer)
      requires AllProper(c, log) && t.handle == handle
      requires log != [] && log[|log| - 1].Looked? && log[|log| - 1].seen == handle && Open(c, t, log[|log| - 1].frame)
      requires t in LastListing(log) && Ineligible(t, c) == NoReason && Holding(log) == Some(LockName(t))
      requires Running() && Where() == Gated(t)
      modifies this`log, this`st, this`trail, this`acts
      ensures AllProper(c, log) && Holding(log) == old(Holding(log))
      ensures Running() && (if a == Stale then Where() == Rejoining(t) && st.lock == old(st.lock) else Where() == Done)
      ensures a != Stale ==> st.lock == Free(old(st.lock), me)
      ensures Sendings(acts) == old(Sendings(acts)) + [a != Stale]
      ensures Sends(log) == old(Sends(log)) + [Sent(handle, c.pointer, a)]
      ensures a == answer(|old(log)|) && log == old(log) + [Sent(handle, c.pointer, a)]
    {
      a := answer(|log|);
      Record(c, Sent(handle, c.pointer, a));
      TakeAnswer(t, a);
    }

    /** The gate and, when it passes, the send. */
    method Attempt(c: Call, t: Terminal, ghost before: seq<bool>) returns (a: Option<Answer>, why: Why)
      requires AllProper(c, log) && Holding(log) == Some(LockName(t)) && Accounted(before)
      requires t in LastListing(log) && Ineligible(t, c) == NoReason
      requires Running() && Where() == Ready(t)
      modifies this`log, this`st, this`trail, this`acts
      ensures AllProper(c, log) && Holding(log) == old(Holding(log)) && Running()
      ensures a.Some? <==> why == NoReason
      ensures Sends(log) == if a.Some? then old(Sends(log)) + [Sent(t.handle, c.pointer, a.value)] else old(Sends(log))
      ensures Accounted(before)
      ensures a == Some(Stale) ==> Where() == Rejoining(t)
      ensures st.lock == if a.Some? && a != Some(Stale) then Free(old(st.lock), me) else old(st.lock)
      ensures GateSays(c, t, screen(|old(log)|), why)
      ensures a.Some? ==> a.value == answer(|old(log)| + 1) && |log| == |old(log)| + 2
      ensures old(log) <= log
    {
      why := Gate(c, t);
      if why != NoReason { return None, why; }
      TakeGate(t);
      ghost var sends := Sends(log);
      var answer := SendText(c, t, t.handle);
      OneMoreTyped(before, sends, Sent(t.handle, c.pointer, answer));
      return Some(answer), NoReason;
    }

    /** From the gate to the last answer, under the lock: at most two sends, the second only after a stale one. */
    method SendLocked(c: Call, target: Terminal) returns (delivery: Delivery, why: Why)
      requires AllProper(c, log) && Sends(log) == [] && Holding(log) == Some(LockName(target))
      requires target in LastListing(log) && Ineligible(target, c) == NoReason
      requires Running() && Where() == Ready(target)
      modifies this`log, this`st, this`trail, this`acts
      ensures AllProper(c, log) && AtMostOnce(log) && Reported(log, delivery)
      ensures delivery == Proven <==> why == NoReason
      ensures Running() && (st.lock == old(st.lock) || st.lock == Free(old(st.lock), me))
      ensures Accounted(old(Sendings(acts)))
      ensures LockedSays(c, target, |old(log)|, delivery, why) && old(log) <= log
    {
      ghost var before := Sendings(acts);
      NoneTyped(before);
      var a, w := Attempt(c, target, before);
      if a == None { return Skipped, w; }
      ghost var first := Sent(target.handle, c.pointer, a.value);
      assert Sends(log) == [first];
      if a == Some(Stale) {
        delivery, why := SendAgain(c, target, before);
        return;
      }
      JudgedTells([first]);
      JudgedExactly(a.value);
      delivery, why := Judged(a.value).0, Judged(a.value).1;
    }

    /** The same pane's new terminal, if it may be sent to. */
    method NextTarget(c: Call, was: Terminal) returns (next: Terminal, w: Why)
      requires AllProper(c, log)
      modifies this`log
      ensures AllProper(c, log) && Sends(log) == old(Sends(log)) && Holding(log) == old(Holding(log))
      ensures w == NoReason ==> next in LastListing(log) && next.handle != was.handle && was.pane != ""
                                && next.pane == was.pane && LockName(next) == LockName(was)
                                && Ineligible(next, c) == NoReason && |log| == |old(log)| + 1
      ensures NextSays(c, was, |old(log)|, next, w) && old(log) <= log
    {
      var r;
      next, r := Rejoin(c, was);
      w := if r == NoReason then Ineligible(next, c) else r;
    }

    /** After a stale handle: the same pane's new terminal, once. */
    method SendAgain(c: Call, target: Terminal, ghost before: seq<bool>) returns (delivery: Delivery, why: Why)
      requires AllProper(c, log) && Holding(log) == Some(LockName(target)) && Accounted(before)
      requires Sends(log) == [Sent(target.handle, c.pointer, Stale)]
      requires Running() && Where() == Rejoining(target)
      modifies this`log, this`st, this`trail, this`acts
      ensures AllProper(c, log) && AtMostOnce(log) && Reported(log, delivery)
      ensures delivery == Proven <==> why == NoReason
      ensures Running() && (st.lock == old(st.lock) || st.lock == Free(old(st.lock), me))
      ensures Accounted(before)
      ensures AgainSays(c, target, |old(log)|, delivery, why) && old(log) <= log
    {
      var next, w := NextTarget(c, target);
      if w != NoReason { return Failed, w; }
      delivery, why := SendToNext(c, target, next, before);
    }

    /** The second attempt, at the pane's new terminal. */
    method SendToNext(c: Call, target: Terminal, next: Terminal, ghost before: seq<bool>)
      returns (delivery: Delivery, why: Why)
      requires AllProper(c, log) && Holding(log) == Some(LockName(next)) && Accounted(before)
      requires Sends(log) == [Sent(target.handle, c.pointer, Stale)]
      requires Running() && Where() == Rejoining(target)
      requires next in LastListing(log) && Ineligible(next, c) == NoReason
      requires next.handle != target.handle && target.pane != "" && next.pane == target.pane
      modifies this`log, this`st, this`trail, this`acts
      ensures AllProper(c, log) && AtMostOnce(log) && Reported(log, delivery)
      ensures delivery == Proven <==> why == NoReason
      ensures Running() && (st.lock == old(st.lock) || st.lock == Free(old(st.lock), me))
      ensures Accounted(before)
      ensures EndsAs(c, next, |old(log)|, delivery, why) && old(log) <= log
    {
      TakeRejoin(target, next);
      var a, w := Attempt(c, next, before);
      if a == None { return Skipped, w; }
      JudgedTells(Sends(log));
      JudgedExactly(a.value);
      delivery, why := Judged(a.value).0, Judged(a.value).1;
    }

    /** `lockTarget`, when nobody holds the lock. */
    method LockTarget(c: Call, t: Terminal)
      requires Quiet(c) && Running() && Where() == Found(t) && LockName(t) !in st.lock
      modifies this`log, this`st, this`trail, this`acts
      ensures AllProper(c, log) && Sends(log) == [] && Holding(log) == Some(LockName(t))
      ensures LastListing(log) == old(LastListing(log)) && log == old(log) + [Locked(LockName(t))]
      ensures Running() && Where() == Ready(t) && st.lock == old(st.lock)[LockName(t) := me]
      ensures Sendings(acts) == old(Sendings(acts))
    {
      Record(c, Locked(LockName(t)));
      TakeLock(t);
    }

    method Unlock(c: Call, t: Terminal, ghost locks: map<string, nat>)
      requires AllProper(c, log) && Running()
      requires LockName(t) !in locks && forall name :: name in locks ==> locks[name] != me
      requires st.lock == locks[LockName(t) := me] || st.lock == Free(locks[LockName(t) := me], me)
      modifies this`log, this`st, this`trail, this`acts
      ensures AllProper(c, log) && Sends(log) == old(Sends(log)) && Holding(log) == None
      ensures Running() && st.lock == locks && Sendings(acts) == old(Sendings(acts))
      ensures old(log) <= log
    {
      Record(c, Released(LockName(t)));
      LocksAsBefore(locks, LockName(t), me, st.lock);
      TakeEnd();
    }

    /** The lock is free: take it, send, and let it go. */
    method HoldAndSend(c: Call, target: Terminal) returns (delivery: Delivery, why: Why)
      requires Quiet(c) && target in LastListing(log) && Ineligible(target, c) == NoReason
      requires Running() && Where() == Found(target) && LockName(target) !in st.lock
      requires forall name :: name in st.lock ==> st.lock[name] != me
      modifies this`log, this`st, this`trail, this`acts
      ensures AllProper(c, log) && AtMostOnce(log) && Reported(log, delivery)
      ensures Holding(log) == None && (delivery == Proven <==> why == NoReason)
      ensures Running() && st.lock == old(st.lock) && Accounted(old(Sendings(acts)))
      ensures LockedSays(c, target, |old(log)| + 1, delivery, why)
      ensures old(log) + [Locked(LockName(target))] <= log
    {
      ghost var locks := st.lock;
      LockTarget(c, target);
      delivery, why := SendLocked(c, target);
      Unlock(c, target, locks);
    }

    /** The course of a delivery to a handle, from the record that was found for it on. */
    ghost predicate DeliverSays(c: Call, handle: string, newTab: bool, log: seq<Event>, delivery: Delivery, why: Why)
    {
      exists t, w, n: nat ::
        FoundAfter(handle, if newTab then 5 else 1, log, n, t, w) && ChosenSays(c, t, w, n, log, delivery, why)
    }

    /** A terminal that is not found, not eligible or locked by another sender is skipped before anything else;
        otherwise the lock is the next event, and the course under it follows. */
    ghost predicate ChosenSays(c: Call, t: Terminal, w: Why, n: nat, log: seq<Event>, delivery: Delivery, why: Why)
    {
      if w == NoReason && Ineligible(t, c) == NoReason && lockFree(n, LockName(t))
      then n < |log| && log[n] == Locked(LockName(t)) && LockedSays(c, t, n + 1, delivery, why)
      else && |log| == n && delivery == Skipped
           && why == (if w != NoReason then w
                      else if Ineligible(t, c) != NoReason then Ineligible(t, c) else LockBusy)
    }

    ghost predicate FoundAfter(handle: string, tries: nat, log: seq<Event>, n: nat, t: Terminal, w: Why)
    {
      n <= |log| && Answered([], log[..n]) && FoundIn(handle, tries, log[..n], list(n), t, w)
    }

    /** What is done with the record found. */
    method Address(c: Call, t: Terminal, w: Why) returns (delivery: Delivery, why: Why)
      requires Quiet(c) && Running() && Where() == Start && Accounted(Sendings(acts))
      requires w == NoReason && t.agent != "" ==> t in LastListing(log)
      requires forall n, name :: lockFree(n, name) ==> name !in st.lock
      requires forall name :: name in st.lock ==> st.lock[name] != me
      modifies this`log, this`st, this`trail, this`acts
      ensures AllProper(c, log) && AtMostOnce(log) && Reported(log, delivery)
      ensures Holding(log) == None && (delivery == Proven <==> why == NoReason)
      ensures Running() && st.lock == old(st.lock) && Accounted(old(Sendings(acts)))
      ensures old(log) <= log && ChosenSays(c, t, w, |old(log)|, log, delivery, why)
    {
      if w != NoReason { return Skipped, w; }
      why := Ineligible(t, c);
      if why != NoReason { return Skipped, why; }
      TakeFind(t);
      if !lockFree(|log|, LockName(t)) { return Skipped, LockBusy; }
      delivery, why := HoldAndSend(c, t);
    }

    /** From the handle on. */
    method Deliver(c: Call, handle: string, newTab: bool) returns (delivery: Delivery, why: Why)
      requires log == [] && Running() && Where() == Start
      requires forall n, name :: lockFree(n, name) ==> name !in st.lock
      requires forall name :: name in st.lock ==> st.lock[name] != me
      modifies this`log, this`st, this`trail, this`acts
      ensures AllProper(c, log) && AtMostOnce(log) && Reported(log, delivery)
      ensures Holding(log) == None && (delivery == Proven <==> why == NoReason)
      ensures Running() && st.lock == old(st.lock) && Accounted(old(Sendings(acts)))
      ensures DeliverSays(c, handle, newTab, log, delivery, why)
    {
      NoneTyped(Sendings(acts));
      var t, w := FindTarget(c, handle, newTab);
      ghost var n := |log|;
      assert log[0..] == log && log[..n] == log;
      ghost var before := log;
      delivery, why := Address(c, t, w);
      assert log[..n] == before;
      assert FoundAfter(handle, if newTab then 5 else 1, log, n, t, w);
    }

    /** `Send`. `created`: what opening a new tab gave, when one was asked for. */
    method Send(c: Call, briefOk: bool, usage: bool, available: bool, newTab: bool, terminal: string,
                created: Option<string>, started: Option<string>)
      returns (delivery: Delivery, why: Why)
      requires log == [] && Running() && Where() == Start
      requires forall n, name :: lockFree(n, name) ==> name !in st.lock
      requires forall name :: name in st.lock ==> st.lock[name] != me
      modifies this`log, this`st, this`trail, this`acts
      ensures AllProper(c, log) && AtMostOnce(log) && Reported(log, delivery)
      ensures Holding(log) == None && (delivery == Proven <==> why == NoReason)
      ensures Running() && st.lock == old(st.lock)
      ensures Accounted(old(Sendings(acts)))
      ensures var tab := if newTab then started else Some(terminal);
              var asked := briefOk && usage && available;
              && (!briefOk ==> delivery == Skipped && why == BriefInvalid)
              && (briefOk && !usage ==> delivery == Skipped && why == Usage)
              && (briefOk && usage && !available ==> delivery == Skipped && why == Unavailable)
              && (asked && newTab && created == None ==> delivery == Skipped && why == CreateFailed)
              && (asked && newTab && created.Some? && started == None ==> delivery == Skipped && why == StartupNotIdle)
              && (asked && tab.Some? && !(newTab && created == None) ==>
                    DeliverSays(c, tab.value, newTab, log, delivery, why))
              && (!asked || tab == None || (newTab && created == None) ==> log == [])
    {
      NoneTyped(Sendings(acts));
      if !briefOk { return Skipped, BriefInvalid; }
      if !usage { return Skipped, Usage; }
      if !available { return Skipped, Unavailable; }
      var handle := terminal;
      if newTab {
        if created.None? { return Skipped, CreateFailed; }
        if started.None? { return Skipped, StartupNotIdle; }
        handle := started.value;
      }
      delivery, why := Deliver(c, handle, newTab);
    }
  }

  /** A lock taken and freed again leaves the others. */
  lemma LocksAsBefore(lock: map<string, nat>, name: string, i: nat, now: map<string, nat>)
    requires name !in lock && forall n :: n in lock ==> lock[n] != i
    requires now == lock[name := i] || now == Free(lock[name := i], i)
    ensures Free(now, i) == lock
  {
  }
}
