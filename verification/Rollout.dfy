/** What one rollout file says about a delivered prompt. The scan decodes only the lines a substring
    filter lets through; the meaning decodes every line. */
module Rollout {
  import opened Lines
  import opened Option
  import opened Text

  datatype Kind = SessionMeta | ResponseItem | EventMsg | OtherKind

  datatype Payload = TaskStarted | TaskComplete | TurnAborted | Message | OtherPayload

  /** A decoded line. */
  datatype Rec = Rec(
    kind: Kind, payload: Payload, fromUser: bool, id: string, userThread: bool,
    turn: string, text: string, at: int)

  datatype TurnState = NoMarker | Pending | Complete | Aborted

  datatype Outcome = Outcome(state: TurnState, message: string)

  datatype Report = Report(session: string, root: bool, outcome: Outcome)

  /** The question asked of a rollout: the prompt's marker (`None` in a headless run), the oldest time that
      counts, and the decoder of a line. */
  datatype Query = Query(marker: Option<string>, since: int, decode: string -> Option<Rec>)

  const STARTED := "\"task_started\""
  const COMPLETE := "\"task_complete\""
  const ABORTED := "\"turn_aborted\""

  predicate Contains(line: string, part: string) {
    part <= line || (line != [] && Contains(line[1..], part))
  }

  /** The record of a line; a blank line, or one that does not decode, is none. */
  function RecOf(q: Query, line: string): Option<Rec> {
    if TrimSpace(line) == [] then None else q.decode(line)
  }

  predicate IsStart(q: Query, line: string) {
    RecOf(q, line).Some? && RecOf(q, line).value.kind == EventMsg && RecOf(q, line).value.payload == TaskStarted
  }

  /** The delivered prompt: a user message that carries the marker and is not too old. */
  predicate IsPrompt(q: Query, line: string) {
    && q.marker.Some? && Contains(line, q.marker.value)
    && RecOf(q, line).Some?
    && var r := RecOf(q, line).value;
       r.kind == ResponseItem && r.payload == Message && r.fromUser && r.at >= q.since
  }

  /** An end of the turn `want`; of any turn when the rollout has no turn ids. */
  predicate IsEnd(q: Query, line: string, want: string) {
    && RecOf(q, line).Some?
    && var r := RecOf(q, line).value;
       r.kind == EventMsg && (r.payload == TaskComplete || r.payload == TurnAborted) && (want == "" || r.turn == want)
  }

  // ---------------------------------------------------------------------------------------
  // The meaning
  // ---------------------------------------------------------------------------------------

  function FirstPrompt(q: Query, lines: seq<string>): Option<nat> {
    if lines == [] then None
    else if IsPrompt(q, lines[0]) then Some(0)
    else match FirstPrompt(q, lines[1..])
      case None => None
      case Some(k) => Some(k + 1)
  }

  /** The turn of the last `task_started`, or `turn` when there is none. */
  function LastTurn(q: Query, lines: seq<string>, turn: string): string {
    if lines == [] then turn
    else LastTurn(q, lines[1..], if IsStart(q, lines[0]) then RecOf(q, lines[0]).value.turn else turn)
  }

  function FirstEnd(q: Query, lines: seq<string>, want: string): Outcome {
    if lines == [] then Outcome(Pending, "")
    else if IsEnd(q, lines[0], want) then
      var r := RecOf(q, lines[0]).value;
      if r.payload == TaskComplete then Outcome(Complete, r.text) else Outcome(Aborted, "")
    else FirstEnd(q, lines[1..], want)
  }

  /** The first end, after the first qualifying prompt, of the turn that was running then. */
  function Meaning(q: Query, lines: seq<string>, turn: string): Outcome {
    if q.marker.None? then FirstEnd(q, lines, "")
    else match FirstPrompt(q, lines)
      case None => Outcome(NoMarker, "")
      case Some(k) =>
        PromptInRange(q, lines);
        FirstEnd(q, lines[k + 1..], LastTurn(q, lines[..k], turn))
  }

  lemma {:induction false} PromptInRange(q: Query, lines: seq<string>)
    ensures FirstPrompt(q, lines).Some? ==>
              FirstPrompt(q, lines).value < |lines| && IsPrompt(q, lines[FirstPrompt(q, lines).value])
  {
    if lines != [] {
      PromptInRange(q, lines[1..]);
    }
  }

  // ---------------------------------------------------------------------------------------
  // The meaning by lines
  // ---------------------------------------------------------------------------------------

  /** The line holds a record of this kind and payload. */
  predicate Holds(q: Query, line: string, kind: Kind, payload: Payload) {
    && TrimSpace(line) != [] && q.decode(line).Some?
    && q.decode(line).value.kind == kind && q.decode(line).value.payload == payload
  }

  /** A user's message that carries the marker and is not too old. */
  predicate PromptAt(q: Query, lines: seq<string>, k: nat) {
    && k < |lines| && q.marker.Some? && Contains(lines[k], q.marker.value)
    && Holds(q, lines[k], ResponseItem, Message)
    && q.decode(lines[k]).value.fromUser && q.decode(lines[k]).value.at >= q.since
  }

  predicate StartAt(q: Query, lines: seq<string>, k: nat) {
    k < |lines| && Holds(q, lines[k], EventMsg, TaskStarted)
  }

  /** A turn ends there: the one waited for, or any when none is known. */
  predicate EndAt(q: Query, lines: seq<string>, want: string, k: nat) {
    && k < |lines|
    && (Holds(q, lines[k], EventMsg, TaskComplete) || Holds(q, lines[k], EventMsg, TurnAborted))
    && (want == "" || q.decode(lines[k]).value.turn == want)
  }

  ghost predicate FirstPromptAt(q: Query, lines: seq<string>, k: nat) {
    PromptAt(q, lines, k) && forall i :: 0 <= i < k ==> !PromptAt(q, lines, i)
  }

  ghost predicate FirstEndAt(q: Query, lines: seq<string>, want: string, from: nat, k: nat) {
    from <= k && EndAt(q, lines, want, k) && forall i :: from <= i < k ==> !EndAt(q, lines, want, i)
  }

  /** The turn that runs at line `k`: that of the last start before it, or none. */
  ghost predicate RunsAt(q: Query, lines: seq<string>, k: nat, turn: string)
    requires k <= |lines|
  {
    || (turn == "" && forall i :: 0 <= i < k ==> !StartAt(q, lines, i))
    || exists i :: 0 <= i < k && StartAt(q, lines, i) && turn == q.decode(lines[i]).value.turn
                   && forall j :: i < j < k ==> !StartAt(q, lines, j)
  }

  lemma PromptExactly(q: Query, lines: seq<string>, k: nat)
    requires k < |lines|
    ensures IsPrompt(q, lines[k]) <==> PromptAt(q, lines, k)
  {
  }

  lemma {:induction false} FirstPromptFrom(q: Query, lines: seq<string>, k: nat)
    requires k <= |lines|
    ensures match FirstPrompt(q, lines[k..])
            case None => forall i: nat :: k <= i ==> !PromptAt(q, lines, i)
            case Some(n) => PromptAt(q, lines, k + n) && forall i: nat :: k <= i < k + n ==> !PromptAt(q, lines, i)
    decreases |lines| - k
  {
    if k < |lines| {
      FirstPromptFrom(q, lines, k + 1);
      PromptExactly(q, lines, k);
      assert lines[k..][1..] == lines[k + 1..];
    }
  }

  lemma FirstPromptExactly(q: Query, lines: seq<string>)
    ensures match FirstPrompt(q, lines)
            case None => forall i: nat :: !PromptAt(q, lines, i)
            case Some(n) => FirstPromptAt(q, lines, n)
  {
    FirstPromptFrom(q, lines, 0);
    assert lines[0..] == lines;
  }

  lemma RunsOn(q: Query, lines: seq<string>, k: nat, turn: string)
    requires k < |lines| && RunsAt(q, lines, k, turn)
    ensures !StartAt(q, lines, k) ==> RunsAt(q, lines, k + 1, turn)
    ensures StartAt(q, lines, k) ==> RunsAt(q, lines, k + 1, q.decode(lines[k]).value.turn)
  {
  }

  lemma {:induction false} LastTurnExactly(q: Query, lines: seq<string>, k: nat)
    requires k <= |lines|
    ensures RunsAt(q, lines, k, LastTurn(q, lines[..k], ""))
  {
    if k > 0 {
      var turn := LastTurn(q, lines[..k - 1], "");
      LastTurnExactly(q, lines, k - 1);
      RunsOn(q, lines, k - 1, turn);
      TurnOfOneMore(q, lines, k - 1);
    }
  }

  lemma TurnOfOneMore(q: Query, lines: seq<string>, k: nat)
    requires k < |lines|
    ensures LastTurn(q, lines[..k + 1], "")
            == if StartAt(q, lines, k) then q.decode(lines[k]).value.turn else LastTurn(q, lines[..k], "")
  {
    assert lines[..k + 1] == lines[..k] + [lines[k]];
    LastTurnOfOneMore(q, lines[..k], lines[k], "");
  }

  lemma {:induction false} LastTurnOfOneMore(q: Query, lines: seq<string>, line: string, turn: string)
    ensures LastTurn(q, lines + [line], turn)
            == if IsStart(q, line) then RecOf(q, line).value.turn else LastTurn(q, lines, turn)
    decreases |lines|
  {
    if lines == [] {
      assert lines + [line] == [line] && [line][1..] == [];
    } else {
      assert (lines + [line])[1..] == lines[1..] + [line];
      LastTurnOfOneMore(q, lines[1..], line, if IsStart(q, lines[0]) then RecOf(q, lines[0]).value.turn else turn);
    }
  }

  lemma {:induction false} FirstEndExactly(q: Query, lines: seq<string>, want: string, from: nat)
    requires from <= |lines|
    ensures (forall k: nat :: FirstEndAt(q, lines, want, from, k) ==>
               FirstEnd(q, lines[from..], want)
               == if Holds(q, lines[k], EventMsg, TaskComplete)
                  then Outcome(Complete, q.decode(lines[k]).value.text) else Outcome(Aborted, ""))
    ensures (forall k: nat :: from <= k ==> !EndAt(q, lines, want, k)) ==>
              FirstEnd(q, lines[from..], want) == Outcome(Pending, "")
    decreases |lines| - from
  {
    if from < |lines| {
      FirstEndExactly(q, lines, want, from + 1);
      assert lines[from..][1..] == lines[from + 1..];
      assert IsEnd(q, lines[from], want) <==> EndAt(q, lines, want, from);
    }
  }

  /** The meaning, line by line: no prompt, no marker; otherwise the first end behind the first prompt, of the turn
      that runs there, says how it went, and without one it is pending. */
  lemma MeaningExactly(q: Query, lines: seq<string>)
    requires q.marker.Some?
    ensures (forall k: nat :: !PromptAt(q, lines, k)) ==>
              Meaning(q, lines, "") == Outcome(NoMarker, "")
    ensures forall k: nat :: FirstPromptAt(q, lines, k) ==>
              exists want :: RunsAt(q, lines, k, want) && EndsLike(q, lines, want, k + 1, Meaning(q, lines, ""))
  {
    FirstPromptExactly(q, lines);
    forall k: nat | FirstPromptAt(q, lines, k)
      ensures exists want :: RunsAt(q, lines, k, want) && EndsLike(q, lines, want, k + 1, Meaning(q, lines, ""))
    {
      assert FirstPrompt(q, lines) == Some(k) by {
        var j := FirstPrompt(q, lines).value;
        if j < k || k < j {
          assert false;
        }
      }
      var want := LastTurn(q, lines[..k], "");
      LastTurnExactly(q, lines, k);
      FirstEndExactly(q, lines, want, k + 1);
      assert EndsLike(q, lines, want, k + 1, Meaning(q, lines, ""));
    }
  }

  /** A headless run takes the first end. */
  lemma HeadlessExactly(q: Query, lines: seq<string>)
    requires q.marker == None
    ensures EndsLike(q, lines, "", 0, Meaning(q, lines, ""))
  {
    FirstEndExactly(q, lines, "", 0);
    assert lines[0..] == lines;
  }

  ghost predicate EndsLike(q: Query, lines: seq<string>, want: string, from: nat, o: Outcome) {
    && (forall k: nat :: FirstEndAt(q, lines, want, from, k) ==>
          o == if Holds(q, lines[k], EventMsg, TaskComplete)
               then Outcome(Complete, q.decode(lines[k]).value.text) else Outcome(Aborted, ""))
    && ((forall k: nat :: from <= k ==> !EndAt(q, lines, want, k)) ==> o == Outcome(Pending, ""))
  }

  // ---------------------------------------------------------------------------------------
  // The scan
  // ---------------------------------------------------------------------------------------

  /** The filter: whether a line is decoded at all. */
  predicate Relevant(q: Query, line: string, first: bool, matched: bool) {
    || first || Contains(line, STARTED)
    || (matched && (Contains(line, COMPLETE) || Contains(line, ABORTED)))
    || (!matched && q.marker.Some? && Contains(line, q.marker.value))
  }

  /** The scan over the lines left, as a function: `matched`, `turn` and `want` are its variables. */
  function Scanned(q: Query, lines: seq<string>, first: bool, matched: bool, turn: string, want: string): Outcome
    requires matched || q.marker.Some?
  {
    if lines == [] then Outcome(if matched then Pending else NoMarker, "")
    else if !Relevant(q, lines[0], first, matched) then Scanned(q, lines[1..], false, matched, turn, want)
    else if IsStart(q, lines[0]) then Scanned(q, lines[1..], false, matched, RecOf(q, lines[0]).value.turn, want)
    else if !matched && IsPrompt(q, lines[0]) then Scanned(q, lines[1..], false, true, turn, turn)
    else if matched && IsEnd(q, lines[0], want) then
      var r := RecOf(q, lines[0]).value;
      if r.payload == TaskComplete then Outcome(Complete, r.text) else Outcome(Aborted, "")
    else Scanned(q, lines[1..], false, matched, turn, want)
  }

  /** What the first line says about the session. */
  function Header(q: Query, line: string): (string, bool) {
    var head := RecOf(q, line);
    if head.Some? && head.value.kind == SessionMeta then (head.value.id, head.value.userThread) else ("", false)
  }

  method Decode(q: Query, line: string, relevant: bool) returns (r: Option<Rec>)
    ensures r == if relevant then RecOf(q, line) else None
  {
    if !relevant || TrimSpace(line) == [] { return None; }
    r := q.decode(line);
  }

  /** `scanRollout`; `file` is `None` when it cannot be opened. */
  method ScanRollout(q: Query, file: Option<string>) returns (out: Report)
    ensures file.None? ==> out == Report("", false, Outcome(NoMarker, ""))
    ensures file.Some? ==> out.outcome == Scanned(q, Split(file.value, '\n'), true, q.marker.None?, "", "")
    ensures file.Some? ==> (out.session, out.root) == Header(q, Split(file.value, '\n')[0])
    ensures file.Some? ==>
              var line := Split(file.value, '\n')[0];
              if TrimSpace(line) != [] && q.decode(line).Some? && q.decode(line).value.kind == SessionMeta
              then out.session == q.decode(line).value.id && out.root == q.decode(line).value.userThread
              else out.session == "" && !out.root
  {
    if file.None? { return Report("", false, Outcome(NoMarker, "")); }
    var lines := Split(file.value, '\n');
    var session, root := ReadHeader(q, lines[0]);
    var outcome := ScanLines(q, lines);
    return Report(session, root, outcome);
  }

  method ReadHeader(q: Query, line: string) returns (session: string, root: bool)
    ensures (session, root) == Header(q, line)
  {
    var r := Decode(q, line, true);
    if r.Some? && r.value.kind == SessionMeta { return r.value.id, r.value.userThread; }
    return "", false;
  }

  /** The loop of `scanRollout`, but for the session header of the first line. */
  method ScanLines(q: Query, lines: seq<string>) returns (outcome: Outcome)
    ensures outcome == Scanned(q, lines, true, q.marker.None?, "", "")
  {
    var matched := q.marker.None?;
    var turn, want := "", "";
    var i := 0;
    assert lines[0..] == lines;
    while i < |lines|
      invariant 0 <= i <= |lines| && (matched || q.marker.Some?)
      invariant Scanned(q, lines, true, q.marker.None?, "", "") == Scanned(q, lines[i..], i == 0, matched, turn, want)
    {
      var line := lines[i];
      var decoded := Decode(q, line, Relevant(q, line, i == 0, matched));
      if decoded.Some? {
        var r := decoded.value;
        if r.kind == EventMsg && r.payload == TaskStarted {
          turn := r.turn;
        } else if !matched && IsPrompt(q, line) {
          matched, want := true, turn;
        } else if matched && IsEnd(q, line, want) {
          return if r.payload == TaskComplete then Outcome(Complete, r.text) else Outcome(Aborted, "");
        }
      }
      i := i + 1;
    }
    return Outcome(if matched then Pending else NoMarker, "");
  }

  // ---------------------------------------------------------------------------------------
  // The scan gives the meaning
  // ---------------------------------------------------------------------------------------

  /** The type name of a record that matters stands in its line as it is. */
  predicate Literal(q: Query, line: string) {
    RecOf(q, line).Some? && RecOf(q, line).value.kind == EventMsg ==>
      match RecOf(q, line).value.payload
      case TaskStarted => Contains(line, STARTED)
      case TaskComplete => Contains(line, COMPLETE)
      case TurnAborted => Contains(line, ABORTED)
      case _ => true
  }

  predicate EndsLiterally(q: Query, line: string) {
    IsEnd(q, line, "") ==> Contains(line, STARTED) || Contains(line, COMPLETE) || Contains(line, ABORTED)
  }

  /** Before the prompt, a line with the marker is decoded too. */
  predicate StartsLiterally(q: Query, line: string) {
    IsStart(q, line) ==> Contains(line, STARTED) || (q.marker.Some? && Contains(line, q.marker.value))
  }

  /** Once the prompt is found, all that matters is that the ends of turns are seen. */
  lemma {:induction false} ScanAfterMatch(q: Query, lines: seq<string>, first: bool, turn: string, want: string)
    requires forall l :: l in lines ==> EndsLiterally(q, l)
    ensures Scanned(q, lines, first, true, turn, want) == FirstEnd(q, lines, want)
    decreases |lines|
  {
    if lines != [] {
      assert EndsLiterally(q, lines[0]);
      var visible := Relevant(q, lines[0], first, true);
      ScanAfterMatch(q, lines[1..], false,
                     if visible && IsStart(q, lines[0]) then RecOf(q, lines[0]).value.turn else turn, want);
    }
  }

  lemma MeaningOfRest(q: Query, lines: seq<string>, turn: string)
    requires q.marker.Some? && lines != [] && !IsPrompt(q, lines[0])
    ensures Meaning(q, lines, turn)
            == Meaning(q, lines[1..], if IsStart(q, lines[0]) then RecOf(q, lines[0]).value.turn else turn)
  {
    PromptInRange(q, lines);
    PromptInRange(q, lines[1..]);
    var rest := FirstPrompt(q, lines[1..]);
    if rest.Some? {
      var k := rest.value;
      assert lines[k + 2..] == lines[1..][k + 1..];
      assert lines[..k + 1][1..] == lines[1..][..k];
    }
  }

  /** Waiting for this turn, or for any, takes the same ends. */
  ghost predicate Free(q: Query, turn: string) {
    forall e :: IsEnd(q, e, "") ==> turn == "" || RecOf(q, e).value.turn == turn
  }

  lemma {:induction false} FreeTurnsEndAlike(q: Query, lines: seq<string>, a: string, b: string)
    requires Free(q, a) && Free(q, b)
    ensures FirstEnd(q, lines, a) == FirstEnd(q, lines, b)
  {
    if lines != [] {
      FreeTurnsEndAlike(q, lines[1..], a, b);
      assert IsEnd(q, lines[0], "") ==> IsEnd(q, lines[0], a) && IsEnd(q, lines[0], b);
    }
  }

  /** The running turn as the scan and as the meaning have it: the same, or it does not matter. */
  ghost predicate SameTurn(q: Query, lines: seq<string>, turn: string, m: string) {
    || (turn == m && forall l :: l in lines ==> StartsLiterally(q, l))
    || (Free(q, turn) && Free(q, m) && forall l :: l in lines && IsStart(q, l) ==> Free(q, RecOf(q, l).value.turn))
  }

  lemma {:induction false} ScanBeforeMatch(q: Query, lines: seq<string>, first: bool, turn: string, m: string)
    requires q.marker.Some? && (forall l :: l in lines ==> EndsLiterally(q, l)) && SameTurn(q, lines, turn, m)
    ensures Scanned(q, lines, first, false, turn, "") == Meaning(q, lines, m)
    decreases |lines|
  {
    if lines != [] {
      var line := lines[0];
      assert EndsLiterally(q, line);
      if IsPrompt(q, line) {
        assert lines[..0] == [];
        ScanAfterMatch(q, lines[1..], false, turn, turn);
        if turn != m {
          FreeTurnsEndAlike(q, lines[1..], turn, m);
        }
      } else {
        MeaningOfRest(q, lines, m);
        var visible := Relevant(q, line, first, false);
        assert StartsLiterally(q, line) && IsStart(q, line) ==> visible;
        ScanBeforeMatch(q, lines[1..], false,
                        if visible && IsStart(q, line) then RecOf(q, line).value.turn else turn,
                        if IsStart(q, line) then RecOf(q, line).value.turn else m);
      }
    }
  }

  /** With type names written literally, the filtered scan gives what decoding every line gives. */
  lemma ScanIsMeaning(q: Query, lines: seq<string>)
    requires forall l :: l in lines ==> Literal(q, l)
    ensures Scanned(q, lines, true, q.marker.None?, "", "") == Meaning(q, lines, "")
  {
    forall l | l in lines
      ensures EndsLiterally(q, l) && StartsLiterally(q, l)
    {
      assert Literal(q, l);
    }
    if q.marker.None? {
      ScanAfterMatch(q, lines, true, "", "");
    } else {
      ScanBeforeMatch(q, lines, true, "", "");
    }
  }

  // ---------------------------------------------------------------------------------------
  // When the filter loses nothing
  // ---------------------------------------------------------------------------------------

  /** No start names a turn that an end could miss. */
  ghost predicate TurnsDoNotMatter(q: Query) {
    forall x :: IsStart(q, x) ==> Free(q, RecOf(q, x).value.turn)
  }

  /** No end record hides its type name, in an escape such as `\u005f`, from the filter; nor does a start
      record, unless turn ids tell no ends apart. None of that matters if no line can be the prompt. */
  ghost predicate FilterSuffices(q: Query) {
    || (q.marker.Some? && forall line :: !IsPrompt(q, line))
    || ((forall line :: EndsLiterally(q, line))
        && (q.marker.None? || (forall line :: StartsLiterally(q, line)) || TurnsDoNotMatter(q)))
  }

  /** That condition is exact: the scan gives the meaning of every rollout if and only if it holds. */
  lemma FilterIsExact(q: Query)
    ensures (forall lines :: Scanned(q, lines, true, q.marker.None?, "", "") == Meaning(q, lines, ""))
            <==> FilterSuffices(q)
  {
    if FilterSuffices(q) {
      forall lines
        ensures Scanned(q, lines, true, q.marker.None?, "", "") == Meaning(q, lines, "")
      {
        FilterIsEnough(q, lines);
      }
    } else {
      var lines := FilterLoses(q);
      assert Scanned(q, lines, true, q.marker.None?, "", "") != Meaning(q, lines, "");
    }
  }

  lemma FilterIsEnough(q: Query, lines: seq<string>)
    requires FilterSuffices(q)
    ensures Scanned(q, lines, true, q.marker.None?, "", "") == Meaning(q, lines, "")
  {
    if q.marker.None? {
      ScanAfterMatch(q, lines, true, "", "");
    } else if forall line :: !IsPrompt(q, line) {
      NoPromptNoMatch(q, lines, true, "", "");
    } else {
      ScanBeforeMatch(q, lines, true, "", "");
    }
  }

  lemma {:induction false} NoPromptNoMatch(q: Query, lines: seq<string>, first: bool, turn: string, m: string)
    requires q.marker.Some? && forall line :: !IsPrompt(q, line)
    ensures Scanned(q, lines, first, false, turn, "") == Outcome(NoMarker, "") == Meaning(q, lines, m)
    decreases |lines|
  {
    if lines != [] {
      var line := lines[0];
      MeaningOfRest(q, lines, m);
      NoPromptNoMatch(q, lines[1..], false,
                      if Relevant(q, line, first, false) && IsStart(q, line) then RecOf(q, line).value.turn else turn,
                      if IsStart(q, line) then RecOf(q, line).value.turn else m);
    }
  }

  /** A rollout that the scan reads differently. */
  lemma FilterLoses(q: Query) returns (lines: seq<string>)
    requires !FilterSuffices(q)
    ensures Scanned(q, lines, true, q.marker.None?, "", "") != Meaning(q, lines, "")
  {
    if !(forall line :: EndsLiterally(q, line)) {
      var e :| !EndsLiterally(q, e);
      if q.marker.None? {
        HiddenEnd(q, e);
        lines := ["", e];
      } else {
        var p :| IsPrompt(q, p);
        BlankFirst(q, [p, e]);
        HiddenAfterPrompt(q, p, e);
        lines := [""] + [p, e];
      }
    } else {
      var p :| IsPrompt(q, p);
      var h :| !StartsLiterally(q, h);
      var x :| IsStart(q, x) && !Free(q, RecOf(q, x).value.turn);
      var e :| IsEnd(q, e, "") && !IsEnd(q, e, RecOf(q, x).value.turn);
      assert EndsLiterally(q, e);
      lines := HiddenStart(q, p, h, x, e);
    }
  }

  /** The turn has ended, and the scan still waits. */
  lemma HiddenEnd(q: Query, line: string)
    requires q.marker.None? && !EndsLiterally(q, line)
    ensures Scanned(q, ["", line], true, true, "", "") == Outcome(Pending, "")
    ensures Meaning(q, ["", line], "").state in {Complete, Aborted}
  {
    var lines := ["", line];
    assert RecOf(q, "") == None;
    assert lines[1..] == [line] && [line][1..] == [];
    assert Scanned(q, [line], false, true, "", "") == Outcome(Pending, "");
    assert FirstEnd(q, [line], "").state in {Complete, Aborted};
  }

  lemma BlankFirst(q: Query, rest: seq<string>)
    requires q.marker.Some?
    ensures Scanned(q, [""] + rest, true, false, "", "") == Scanned(q, rest, false, false, "", "")
    ensures Meaning(q, [""] + rest, "") == Meaning(q, rest, "")
  {
    assert RecOf(q, "") == None;
    assert ([""] + rest)[1..] == rest;
    MeaningOfRest(q, [""] + rest, "");
  }

  lemma StartFirst(q: Query, x: string, rest: seq<string>, turn: string, m: string)
    requires q.marker.Some? && IsStart(q, x)
    ensures Scanned(q, [x] + rest, false, false, turn, "")
            == Scanned(q, rest, false, false, if StartsLiterally(q, x) then RecOf(q, x).value.turn else turn, "")
    ensures Meaning(q, [x] + rest, m) == Meaning(q, rest, RecOf(q, x).value.turn)
  {
    assert ([x] + rest)[1..] == rest;
    MeaningOfRest(q, [x] + rest, m);
  }

  /** The prompt and one line: what the scan and the meaning wait for decides. */
  lemma PromptFirst(q: Query, p: string, e: string, turn: string, m: string)
    requires IsPrompt(q, p)
    ensures Scanned(q, [p, e], false, false, turn, "") == Scanned(q, [e], false, true, turn, turn)
    ensures Meaning(q, [p, e], m) == FirstEnd(q, [e], m)
  {
    var lines := [p, e];
    assert lines[1..] == [e] && lines[0 + 1..] == [e] && lines[..0] == [];
  }

  lemma HiddenAfterPrompt(q: Query, p: string, e: string)
    requires IsPrompt(q, p) && !EndsLiterally(q, e)
    ensures Scanned(q, [p, e], false, false, "", "") == Outcome(Pending, "")
    ensures Meaning(q, [p, e], "").state in {Complete, Aborted}
  {
    PromptFirst(q, p, e, "", "");
    assert [e][1..] == [];
    assert Scanned(q, [e], false, true, "", "") == Outcome(Pending, "");
    assert FirstEnd(q, [e], "").state in {Complete, Aborted};
  }

  /** The end of one turn tells two turns apart. */
  lemma OneWaits(q: Query, p: string, e: string, turn: string, m: string)
    requires IsPrompt(q, p) && EndsLiterally(q, e) && IsEnd(q, e, "")
    requires IsEnd(q, e, turn) <==> !IsEnd(q, e, m)
    ensures Scanned(q, [p, e], false, false, turn, "") != Meaning(q, [p, e], m)
  {
    PromptFirst(q, p, e, turn, m);
    assert [e][1..] == [];
    ScanAfterMatch(q, [e], false, turn, turn);
    assert FirstEnd(q, [e], turn).state == Pending <==> !IsEnd(q, e, turn);
    assert FirstEnd(q, [e], m).state == Pending <==> !IsEnd(q, e, m);
  }

  /** A start that the filter skips leaves the scan with another turn than the one that runs. */
  lemma HiddenStart(q: Query, p: string, h: string, x: string, e: string) returns (lines: seq<string>)
    requires IsPrompt(q, p) && !StartsLiterally(q, h) && EndsLiterally(q, e)
    requires IsStart(q, x) && IsEnd(q, e, "") && !IsEnd(q, e, RecOf(q, x).value.turn)
    ensures Scanned(q, lines, true, q.marker.None?, "", "") != Meaning(q, lines, "")
  {
    if StartsLiterally(q, x) && IsEnd(q, e, RecOf(q, h).value.turn) {
      var turn, m := RecOf(q, x).value.turn, RecOf(q, h).value.turn;
      lines := [""] + ([x] + ([h] + [p, e]));
      BlankFirst(q, [x] + ([h] + [p, e]));
      StartFirst(q, x, [h] + [p, e], "", "");
      StartFirst(q, h, [p, e], turn, turn);
      OneWaits(q, p, e, turn, m);
    } else {
      var y := if StartsLiterally(q, x) then h else x;
      lines := [""] + ([y] + [p, e]);
      BlankFirst(q, [y] + [p, e]);
      StartFirst(q, y, [p, e], "", "");
      OneWaits(q, p, e, "", RecOf(q, y).value.turn);
    }
  }

  // ---------------------------------------------------------------------------------------
  // A decided rollout stays decided
  // ---------------------------------------------------------------------------------------

  /** Once complete or aborted, lines that follow never change the result. */
  lemma {:induction false} DecidedStays(q: Query, lines: seq<string>, more: seq<string>, first: bool, matched: bool,
                                        turn: string, want: string)
    requires matched || q.marker.Some?
    requires Scanned(q, lines, first, matched, turn, want).state in {Complete, Aborted}
    ensures Scanned(q, lines + more, first, matched, turn, want) == Scanned(q, lines, first, matched, turn, want)
    decreases |lines|
  {
    var all := lines + more;
    assert all[0] == lines[0] && all[1..] == lines[1..] + more;
    if !Relevant(q, lines[0], first, matched) {
      DecidedStays(q, lines[1..], more, false, matched, turn, want);
    } else if IsStart(q, lines[0]) {
      DecidedStays(q, lines[1..], more, false, matched, RecOf(q, lines[0]).value.turn, want);
    } else if !matched && IsPrompt(q, lines[0]) {
      DecidedStays(q, lines[1..], more, false, true, turn, turn);
    } else if !(matched && IsEnd(q, lines[0], want)) {
      DecidedStays(q, lines[1..], more, false, matched, turn, want);
    }
  }

  /** A blank last line decides nothing. */
  lemma {:induction false} BlankEnd(q: Query, lines: seq<string>, first: bool, matched: bool, turn: string,
                                    want: string)
    requires matched || q.marker.Some?
    ensures Scanned(q, lines + [[]], first, matched, turn, want) == Scanned(q, lines, first, matched, turn, want)
    decreases |lines|
  {
    var all := lines + [[]];
    if lines == [] {
      assert all == [[]] && all[1..] == [];
      assert RecOf(q, []) == None;
    } else {
      assert all[0] == lines[0] && all[1..] == lines[1..] + [[]];
      BlankEnd(q, lines[1..], false, matched, turn, want);
      BlankEnd(q, lines[1..], false, matched,
               if IsStart(q, lines[0]) then RecOf(q, lines[0]).value.turn else turn, want);
      BlankEnd(q, lines[1..], false, true, turn, turn);
    }
  }

  lemma EndedLines(body: string, more: string)
    ensures Split(body + ['\n'] + more, '\n') == Split(body, '\n') + Split(more, '\n')
  {
    var tail := ['\n'] + more;
    assert tail[1..] == more && Split(tail, '\n') == [[]] + Split(more, '\n');
    SplitConcat(body, tail, '\n');
    assert body + ['\n'] + more == body + tail;
    MeetEmpty(Split(body, '\n'), Split(more, '\n'));
  }

  lemma WholeLines(file: string, more: string)
    requires file != [] && file[|file| - 1] == '\n'
    ensures var whole := Split(file[..|file| - 1], '\n');
            Split(file, '\n') == whole + [[]] && Split(file + more, '\n') == whole + Split(more, '\n')
  {
    var body := file[..|file| - 1];
    assert file == body + ['\n'] == body + ['\n'] + [];
    EndedLines(body, []);
    EndedLines(body, more);
  }

  /** In terms of the file: whatever is appended to whole lines leaves a decided result as it is. */
  lemma AppendingKeepsTheResult(q: Query, file: string, more: string)
    requires file != [] && file[|file| - 1] == '\n'
    requires Scanned(q, Split(file, '\n'), true, q.marker.None?, "", "").state in {Complete, Aborted}
    ensures Scanned(q, Split(file + more, '\n'), true, q.marker.None?, "", "")
            == Scanned(q, Split(file, '\n'), true, q.marker.None?, "", "")
  {
    var whole := Split(file[..|file| - 1], '\n');
    WholeLines(file, more);
    BlankEnd(q, whole, true, q.marker.None?, "", "");
    DecidedStays(q, whole, Split(more, '\n'), true, q.marker.None?, "", "");
  }
}
