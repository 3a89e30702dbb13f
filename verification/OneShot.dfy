/** The deprecated two-step send: `Frame` issues a header and a file name, `Tell` hands the written text
    back, once. The files of the handoff directory are maps by msgid. */
module OneShot {
  import opened Option
  import opened PeerHeader

  const HANDOFF_MAX := 8192

  datatype State = State(txt: map<string, string>, issued: map<string, string>)

  /** How the file system answers one `Tell`. */
  datatype Disk = Disk(dir: bool, issuedReads: bool, txtReads: bool, rmTxt: bool, rmIssued: bool)

  datatype Outcome = Handed(text: string) | Usage | Missing | Refused

  function Drop(m: map<string, string>, id: string, ok: bool): map<string, string> {
    if ok then m - {id} else m
  }

  /** `consumeHandoff`: both removals are tried, and their errors ignored. */
  function Consume(s: State, id: string, d: Disk): State {
    if d.dir then State(Drop(s.txt, id, d.rmTxt), Drop(s.issued, id, d.rmIssued)) else s
  }

  /** `readHandoff`: the text, or why there is none. */
  function Read(s: State, id: string, d: Disk): Outcome {
    if !ValidMsgId(id) then Usage
    else if !d.dir then Refused
    else if id !in s.issued then Missing
    else if !d.issuedReads then Refused
    else if id !in s.txt then Missing
    else if !d.txtReads || |s.txt[id]| > HANDOFF_MAX || !(s.issued[id] <= s.txt[id]) then Refused
    else Handed(s.txt[id])
  }

  /** Whether the text's own header names this session and msgid. */
  function Addressed(text: string, to: string, id: string): bool {
    var h := Leading(text);
    h.Some? && h.value.toSid == to && h.value.id == id
  }

  /** The specification of `Tell`. */
  function TellOf(s: State, to: string, id: string, d: Disk): (State, Outcome) {
    if !ValidSession(to) then (s, Usage)
    else match Read(s, id, d)
      case Usage => (s, Usage)
      case Missing => (s, Missing)
      case Refused => (Consume(s, id, d), Refused)
      case Handed(text) => (Consume(s, id, d), if Addressed(text, to, id) then Handed(text) else Refused)
  }

  predicate ValidFrame(h: Header) {
    ValidSession(h.fromSid) && ValidSession(h.toSid) && ValidKind(h.kind) && h.fromSid != h.toSid
  }

  /** How the write of an issued header ended; a failed one can leave a file, empty or cut short. */
  datatype Write = Written | Failed(left: Option<string>)

  function Left(h: Header, w: Write): Option<string> {
    match w
    case Written => Some(Print(h))
    case Failed(left) => left
  }

  class PeerMsgs {
    var txt: map<string, string>
    var issued: map<string, string>

    ghost function Now(): State reads this { State(txt, issued) }

    constructor ()
      ensures Now() == State(map[], map[])
    {
      txt, issued := map[], map[];
    }

    /** `Frame`; the header carries the new msgid. `oldTxt` and `oldIssued`: the files past their age. */
    method Frame(h: Header, dir: bool, oldTxt: set<string>, oldIssued: set<string>, w: Write)
      returns (line: Option<string>)
      modifies this
      ensures line.Some? <==> ValidFrame(h) && dir && w == Written
      ensures line.Some? <==> ValidSession(h.fromSid) && ValidSession(h.toSid) && ValidKind(h.kind)
                              && h.fromSid != h.toSid && dir && w == Written
      ensures line.Some? ==> line.value == Print(h)
      ensures txt == if ValidFrame(h) && dir then old(txt) - oldTxt else old(txt)
      ensures issued == if !(ValidFrame(h) && dir) then old(issued)
                        else if Left(h, w) == None then old(issued) - oldIssued
                        else (old(issued) - oldIssued)[h.id := Left(h, w).value]
    {
      if !ValidSession(h.fromSid) || !ValidSession(h.toSid) || !ValidKind(h.kind) { return None; }
      if h.fromSid == h.toSid { return None; }
      if !dir { return None; }
      txt, issued := txt - oldTxt, issued - oldIssued;
      match w {
        case Failed(left) =>
          if left.Some? { issued := issued[h.id := left.value]; }
          return None;
        case Written =>
          issued := issued[h.id := Print(h)];
          return Some(Print(h));
      }
    }

    method ConsumeHandoff(id: string, d: Disk)
      modifies this
      ensures Now() == Consume(old(Now()), id, d)
      ensures txt - {id} == old(txt) - {id} && issued - {id} == old(issued) - {id}
      ensures id in txt <==> id in old(txt) && !(d.dir && d.rmTxt)
      ensures id in issued <==> id in old(issued) && !(d.dir && d.rmIssued)
    {
      if !d.dir { return; }
      if d.rmTxt { txt := txt - {id}; }
      if d.rmIssued { issued := issued - {id}; }
    }

    method ReadHandoff(id: string, d: Disk) returns (o: Outcome)
      ensures o == Read(Now(), id, d)
      ensures o.Handed? ==> id in txt && o.text == txt[id] && id in issued && issued[id] <= o.text
      ensures o.Handed? ==> |o.text| <= HANDOFF_MAX
      ensures o.Usage? <==> !ValidMsgId(id)
      ensures o.Missing? <==> ValidMsgId(id) && d.dir && (id !in issued || (d.issuedReads && id !in txt))
      ensures o.Handed? <==> ValidMsgId(id) && d.dir && d.issuedReads && d.txtReads && id in issued && id in txt
                             && |txt[id]| <= HANDOFF_MAX && issued[id] <= txt[id]
    {
      if !ValidMsgId(id) { return Usage; }
      if !d.dir { return Refused; }
      if id !in issued { return Missing; }
      if !d.issuedReads { return Refused; }
      if id !in txt { return Missing; }
      if !d.txtReads || |txt[id]| > HANDOFF_MAX { return Refused; }
      if !(issued[id] <= txt[id]) { return Refused; }
      return Handed(txt[id]);
    }

    /** `Tell`: which outcome, exactly when, over the files it found; what is handed back or refused is spent. */
    method Tell(to: string, id: string, d: Disk) returns (o: Outcome)
      modifies this
      ensures (Now(), o) == TellOf(old(Now()), to, id, d)
      ensures o.Handed? ==> id in old(txt) && o.text == old(txt)[id] && |o.text| <= HANDOFF_MAX
      ensures o.Handed? ==> id in old(issued) && old(issued)[id] <= o.text && Addressed(o.text, to, id)
      ensures o.Usage? <==> !ValidSession(to) || !ValidMsgId(id)
      ensures o.Missing? <==> ValidSession(to) && ValidMsgId(id) && d.dir
                              && (id !in old(issued) || (d.issuedReads && id !in old(txt)))
      ensures o.Handed? <==> ValidSession(to) && ValidMsgId(id) && d.dir && d.issuedReads && d.txtReads
                             && id in old(issued) && id in old(txt) && |old(txt)[id]| <= HANDOFF_MAX
                             && old(issued)[id] <= old(txt)[id] && Addressed(old(txt)[id], to, id)
      ensures o.Usage? || o.Missing? ==> Now() == old(Now())
      ensures o.Handed? || o.Refused? ==> (id in txt <==> id in old(txt) && !(d.dir && d.rmTxt))
      ensures o.Handed? || o.Refused? ==> (id in issued <==> id in old(issued) && !(d.dir && d.rmIssued))
      ensures txt - {id} == old(txt) - {id} && issued - {id} == old(issued) - {id}
    {
      if !ValidSession(to) { return Usage; }
      o := ReadHandoff(id, d);
      match o {
        case Usage | Missing => return;
        case Refused =>
          ConsumeHandoff(id, d);
        case Handed(text) =>
          ConsumeHandoff(id, d);
          if !Addressed(text, to, id) { o := Refused; }
      }
    }
  }

  // ---------------------------------------------------------------------------------------
  // Over runs
  // ---------------------------------------------------------------------------------------

  /** What happens to the directory. `Issue`: a `Frame` that wrote its header, or what a failed write left of
      it; `Text`: the skill writes the message file, at any time and with any text; `Prune`: files past their age go. */
  datatype Event =
    | Issue(h: Header, line: string)
    | Text(wid: string, text: string)
    | Prune(oldTxt: set<string>, oldIssued: set<string>)
    | Tell(to: string, id: string, disk: Disk)

  function Next(s: State, e: Event): State {
    match e
    case Issue(h, line) => s.(issued := s.issued[h.id := line])
    case Text(wid, text) => s.(txt := s.txt[wid := text])
    case Prune(oldTxt, oldIssued) => State(s.txt - oldTxt, s.issued - oldIssued)
    case Tell(to, id, disk) => TellOf(s, to, id, disk).0
  }

  ghost predicate Run(states: seq<State>, events: seq<Event>) {
    && |states| == |events| + 1
    && forall k :: 0 <= k < |events| ==> states[k + 1] == Next(states[k], events[k])
  }

  /** Msgids are random: none is issued twice. */
  ghost predicate FreshIds(events: seq<Event>) {
    forall i, j :: 0 <= i < j < |events| && events[i].Issue? && events[j].Issue? ==> events[i].h.id != events[j].h.id
  }

  ghost predicate HandedAt(states: seq<State>, events: seq<Event>, k: nat, id: string)
    requires |states| == |events| + 1
  {
    && k < |events| && events[k].Tell? && events[k].id == id
    && TellOf(states[k], events[k].to, id, events[k].disk).1.Handed?
  }

  lemma {:induction false} StaysGone(states: seq<State>, events: seq<Event>, i: nat, k: nat, id: string)
    requires Run(states, events) && i <= k <= |events|
    requires id !in states[i].issued && forall m :: i <= m < k && events[m].Issue? ==> events[m].h.id != id
    ensures id !in states[k].issued
  {
    if i < k {
      StaysGone(states, events, i, k - 1, id);
      assert states[k - 1 + 1] == Next(states[k - 1], events[k - 1]);
    }
  }

  /** A header that was there was issued before. */
  lemma {:induction false} WasIssued(states: seq<State>, events: seq<Event>, k: nat, id: string)
    requires Run(states, events) && states[0].issued == map[] && k <= |events| && id in states[k].issued
    ensures exists m :: 0 <= m < k && events[m].Issue? && events[m].h.id == id
  {
    if k > 0 {
      assert states[k - 1 + 1] == Next(states[k - 1], events[k - 1]);
      if id in states[k - 1].issued {
        WasIssued(states, events, k - 1, id);
      }
    }
  }

  lemma HandedTakesTheHeader(s: State, to: string, id: string, d: Disk)
    requires TellOf(s, to, id, d).1.Handed?
    ensures id in s.issued && (d.rmIssued ==> id !in TellOf(s, to, id, d).0.issued)
  {
  }

  /** A header that a step removed does not come back. */
  lemma SpentStays(states: seq<State>, events: seq<Event>, i: nat, j: nat, id: string)
    requires Run(states, events) && states[0].issued == map[] && FreshIds(events) && i < j <= |events|
    requires id in states[i].issued && id !in states[i + 1].issued
    ensures id !in states[j].issued
  {
    WasIssued(states, events, i, id);
    var m :| 0 <= m < i && events[m].Issue? && events[m].h.id == id;
    StaysGone(states, events, i + 1, j, id);
  }

  lemma HandedSpends(states: seq<State>, events: seq<Event>, i: nat, id: string)
    requires Run(states, events) && HandedAt(states, events, i, id) && events[i].disk.rmIssued
    ensures id in states[i].issued && id !in states[i + 1].issued
  {
    HandedTakesTheHeader(states[i], events[i].to, id, events[i].disk);
    assert states[i + 1] == Next(states[i], events[i]);
  }

  /** Over any run a msgid's text is handed back twice only if the first `Tell` could not remove the issued
      header: with that removal, at most once, whatever is written meanwhile. */
  lemma AtMostOnce(states: seq<State>, events: seq<Event>, i: nat, j: nat, id: string)
    requires Run(states, events) && states[0].issued == map[] && FreshIds(events)
    requires HandedAt(states, events, i, id) && HandedAt(states, events, j, id) && i < j
    ensures !events[i].disk.rmIssued
  {
    if events[i].disk.rmIssued {
      HandedSpends(states, events, i, id);
      SpentStays(states, events, i, j, id);
      HandedTakesTheHeader(states[j], events[j].to, id, events[j].disk);
    }
  }

  predicate Readable(d: Disk) {
    d.dir && d.issuedReads && d.txtReads
  }

  lemma ToldExactly(s: State, to: string, id: string, d: Disk)
    requires Readable(d) && ValidSession(to) && ValidMsgId(id)
    ensures TellOf(s, to, id, d).1.Handed?
            <==> && id in s.issued && id in s.txt && |s.txt[id]| <= HANDOFF_MAX
                 && s.issued[id] <= s.txt[id] && Addressed(s.txt[id], to, id)
  {
  }

  lemma FirstTell(s: State, to: string, id: string, d: Disk)
    requires TellOf(s, to, id, d).1.Handed?
    ensures ValidSession(to) && ValidMsgId(id) && id in s.issued && id in s.txt
    ensures |s.txt[id]| <= HANDOFF_MAX && s.issued[id] <= s.txt[id] && Addressed(s.txt[id], to, id)
    ensures TellOf(s, to, id, d).0 == State(Drop(s.txt, id, d.rmTxt), Drop(s.issued, id, d.rmIssued))
  {
  }

  /** A second `Tell` right after the first hands the text back again exactly when neither file could be
      removed; once the message file is written again, when the header could not. */
  lemma SecondTellExactly(s: State, to: string, id: string, first: Disk, second: Disk, again: string)
    requires TellOf(s, to, id, first).1.Handed? && Readable(second)
    requires s.issued[id] <= again && |again| <= HANDOFF_MAX && Addressed(again, to, id)
    ensures var t := TellOf(s, to, id, first).0;
            && (TellOf(t, to, id, second).1.Handed? <==> !first.rmIssued && !first.rmTxt)
            && (TellOf(Next(t, Text(id, again)), to, id, second).1.Handed? <==> !first.rmIssued)
  {
    FirstTell(s, to, id, first);
    var t := State(Drop(s.txt, id, first.rmTxt), Drop(s.issued, id, first.rmIssued));
    ToldExactly(t, to, id, second);
    ToldExactly(Next(t, Text(id, again)), to, id, second);
  }

  /** A `Tell` touches no other message. One that gets as far as reading spends its own, handed back or
      refused: if the header could be removed, every later `Tell` of the msgid finds nothing, whoever asks
      and whatever is written meanwhile, until it is issued again. One that did not get there changed nothing. */
  lemma TellSpendsTheMessage(s: State, to: string, id: string, d: Disk, written: map<string, string>, later: string,
                             again: Disk)
    requires d.dir && d.rmIssued && again.dir
    ensures var (t, o) := TellOf(s, to, id, d);
            && t.txt - {id} == s.txt - {id} && t.issued - {id} == s.issued - {id}
            && (o.Usage? || o.Missing? ==> t == s)
            && (o.Handed? || o.Refused? ==>
                  TellOf(t.(txt := written), later, id, again).1 == if ValidSession(later) then Missing else Usage)
  {
    var (t, o) := TellOf(s, to, id, d);
    assert Drop(s.txt, id, d.rmTxt) - {id} == s.txt - {id};
    assert Drop(s.issued, id, true) - {id} == s.issued - {id};
    if o.Handed? || o.Refused? {
      assert id !in t.issued;
    }
  }

  /** What is handed back is the written text, whole, and it starts with the header that was issued and
      names this session and msgid. */
  lemma HandsBackTheMessage(s: State, to: string, id: string, d: Disk)
    requires TellOf(s, to, id, d).1.Handed?
    ensures id in s.issued && id in s.txt && TellOf(s, to, id, d).1.text == s.txt[id] && s.issued[id] <= s.txt[id]
    ensures Leading(s.txt[id]).Some? && Leading(s.txt[id]).value.toSid == to && Leading(s.txt[id]).value.id == id
  {
  }

  lemma FramedIsAddressed(h: Header, below: string)
    requires Printable(h) && Tail(below)
    ensures Addressed(Print(h) + below, h.toSid, h.id)
  {
    LeadingOfPlain(h, [], below);
    EmptyFront(Print(h), below);
  }

  lemma EmptyFront(line: string, below: string)
    ensures [] + line + below == line + below
  {
  }

  lemma AddressedIsTold(s: State, to: string, id: string, line: string, text: string, d: Disk)
    requires ValidMsgId(id) && ValidSession(to) && Readable(d)
    requires line <= text && |text| <= HANDOFF_MAX && Addressed(text, to, id)
    ensures TellOf(State(s.txt[id := text], s.issued[id := line]), to, id, d).1 == Handed(text)
  {
  }

  /** The intended use works: a message written under the issued header is handed back to its addressee. */
  lemma FramedIsTold(s: State, h: Header, below: string, d: Disk)
    requires Printable(h) && ValidFrame(h) && Tail(below) && |Print(h) + below| <= HANDOFF_MAX && Readable(d)
    ensures var t := Next(Next(s, Issue(h, Print(h))), Text(h.id, Print(h) + below));
            TellOf(t, h.toSid, h.id, d).1 == Handed(Print(h) + below)
  {
    FramedIsAddressed(h, below);
    AddressedIsTold(s, h.toSid, h.id, Print(h), Print(h) + below, d);
  }
}
