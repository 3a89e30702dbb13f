/** The last turns of a transcript: resolving each tool result against its tool use, and agreement
    of the early-stopping tail read with reading the whole file. */
module TailTurns {
  import opened Lines
  import opened Option
  import opened Transcript

  /** `redact.ToolResult` for a tool name, its input (when known) and the result text. */
  type Redactor = (string, Option<string>, string) -> string

  predicate UseOf(r: Record, id: string) {
    r.kind == Tool && r.id == id
  }

  predicate HasUse(recs: seq<Record>, id: string) {
    exists i :: 0 <= i < |recs| && UseOf(recs[i], id)
  }

  /** `toolNameFor`: the first tool use with the id names the tool. */
  function FirstTool(recs: seq<Record>, id: string): string {
    if recs == [] then "" else if UseOf(recs[0], id) then recs[0].tool else FirstTool(recs[1..], id)
  }

  /** The map of inputs: the last tool use with a non-empty id wins. */
  function LastInput(recs: seq<Record>, id: string): Option<string> {
    if recs == [] || id == "" then None
    else if UseOf(recs[|recs| - 1], id) then Some(recs[|recs| - 1].input)
    else LastInput(recs[..|recs| - 1], id)
  }

  function ResolveOne(redact: Redactor, recs: seq<Record>, r: Record): Record {
    if r.kind != Result then r
    else
      var tool := FirstTool(recs, r.id);
      r.(tool := tool, text := redact(tool, LastInput(recs, r.id), r.text))
  }

  predicate FirstUse(recs: seq<Record>, u: nat, id: string) {
    u < |recs| && UseOf(recs[u], id) && forall i :: 0 <= i < u ==> !UseOf(recs[i], id)
  }

  predicate LastUse(recs: seq<Record>, u: nat, id: string) {
    u < |recs| && UseOf(recs[u], id) && forall i :: u < i < |recs| ==> !UseOf(recs[i], id)
  }

  /** What a record of `recs` comes out as. A result carries the name of the first use of its id, and its text
      goes through redaction with that name and the input of the last use; a result without an id has no input,
      one without a use no name either. Everything else comes out as it went in. */
  ghost predicate ComesOut(redact: Redactor, recs: seq<Record>, r: Record, out: Record) {
    && (r.kind != Result ==> out == r)
    && (r.kind == Result && r.id != "" ==>
          forall u: nat, v: nat :: FirstUse(recs, u, r.id) && LastUse(recs, v, r.id) ==>
            out == r.(tool := recs[u].tool, text := redact(recs[u].tool, Some(recs[v].input), r.text)))
    && (r.kind == Result && r.id == "" ==>
          forall u: nat :: FirstUse(recs, u, r.id) ==>
            out == r.(tool := recs[u].tool, text := redact(recs[u].tool, None, r.text)))
    && (r.kind == Result && !HasUse(recs, r.id) ==> out == r.(tool := "", text := redact("", None, r.text)))
  }

  lemma {:induction false} FirstToolIsOfFirstUse(recs: seq<Record>, u: nat, id: string)
    requires FirstUse(recs, u, id)
    ensures FirstTool(recs, id) == recs[u].tool
  {
    if u > 0 {
      assert !UseOf(recs[0], id);
      FirstToolIsOfFirstUse(recs[1..], u - 1, id);
    }
  }

  lemma {:induction false} LastInputIsOfLastUse(recs: seq<Record>, u: nat, id: string)
    requires LastUse(recs, u, id) && id != ""
    ensures LastInput(recs, id) == Some(recs[u].input)
    decreases |recs|
  {
    if u < |recs| - 1 {
      assert !UseOf(recs[|recs| - 1], id);
      LastInputIsOfLastUse(recs[..|recs| - 1], u, id);
    }
  }

  lemma {:induction false} NoUse(recs: seq<Record>, id: string)
    requires !HasUse(recs, id)
    ensures FirstTool(recs, id) == "" && LastInput(recs, id) == None
  {
    NoUseNoName(recs, id);
    InputBehind(recs, [], id);
    assert recs + [] == recs;
  }

  lemma ResolveOneComesOut(redact: Redactor, recs: seq<Record>, r: Record)
    ensures ComesOut(redact, recs, r, ResolveOne(redact, recs, r))
  {
    if r.kind == Result {
      forall u: nat | FirstUse(recs, u, r.id)
        ensures FirstTool(recs, r.id) == recs[u].tool
      {
        FirstToolIsOfFirstUse(recs, u, r.id);
      }
      forall v: nat | LastUse(recs, v, r.id) && r.id != ""
        ensures LastInput(recs, r.id) == Some(recs[v].input)
      {
        LastInputIsOfLastUse(recs, v, r.id);
      }
      if !HasUse(recs, r.id) {
        NoUse(recs, r.id);
      }
    }
  }

  /** What `readBackward` returns: every result resolved against the records that were read. */
  function Resolve(redact: Redactor, recs: seq<Record>): (out: seq<Record>)
    ensures |out| == |recs|
  {
    seq(|recs|, i requires 0 <= i < |recs| => ResolveOne(redact, recs, recs[i]))
  }

  lemma ResolveComesOut(redact: Redactor, recs: seq<Record>)
    ensures forall i :: 0 <= i < |recs| ==> ComesOut(redact, recs, recs[i], Resolve(redact, recs)[i])
  {
    forall i | 0 <= i < |recs|
      ensures ComesOut(redact, recs, recs[i], Resolve(redact, recs)[i])
    {
      ResolveOneComesOut(redact, recs, recs[i]);
    }
  }

  function Turns(recs: seq<Record>): seq<Record> {
    if recs == [] then [] else (if recs[0].kind == End then [] else [recs[0]]) + Turns(recs[1..])
  }

  function Last<T>(s: seq<T>, n: nat): seq<T> {
    if |s| > n then s[|s| - n..] else s
  }

  /** How many of the first `i` records are turns: every record but an `End` is. */
  function TurnCount(recs: seq<Record>, i: nat): nat
    requires i <= |recs|
  {
    if i == 0 then 0 else TurnCount(recs, i - 1) + if recs[i - 1].kind == End then 0 else 1
  }

  lemma {:induction false} TurnCountGrows(recs: seq<Record>, i: nat, j: nat)
    requires i <= j <= |recs|
    ensures TurnCount(recs, i) <= TurnCount(recs, j)
    ensures i < j && recs[i].kind != End ==> TurnCount(recs, i) < TurnCount(recs, j)
    decreases j
  {
    if i < j {
      TurnCountGrows(recs, i, j - 1);
    }
  }

  lemma {:induction false} TurnCountOfRest(recs: seq<Record>, i: nat)
    requires i < |recs|
    ensures TurnCount(recs, i + 1) == TurnCount(recs[1..], i) + if recs[0].kind == End then 0 else 1
  {
    if i > 0 {
      TurnCountOfRest(recs, i - 1);
      assert recs[1..][i - 1] == recs[i];
    }
  }

  /** A turn stands behind as many turns as there are before it. */
  predicate StandsIn(recs: seq<Record>, turns: seq<Record>, i: nat)
    requires i < |recs|
  {
    recs[i].kind != End ==> TurnCount(recs, i) < |turns| && turns[TurnCount(recs, i)] == recs[i]
  }

  /** `turnsOf` keeps exactly the records that are not `End`, in order. */
  lemma {:induction false} TurnsKeepsExactly(recs: seq<Record>)
    ensures |Turns(recs)| == TurnCount(recs, |recs|)
    ensures forall i :: 0 <= i < |recs| ==> StandsIn(recs, Turns(recs), i)
  {
    if recs != [] {
      TurnsKeepsExactly(recs[1..]);
      TurnCountOfRest(recs, |recs| - 1);
      forall i | 0 <= i < |recs|
        ensures StandsIn(recs, Turns(recs), i)
      {
        if i > 0 {
          StandsBehind(recs, i);
        }
      }
    }
  }

  lemma StandsBehind(recs: seq<Record>, i: nat)
    requires 0 < i < |recs| && StandsIn(recs[1..], Turns(recs[1..]), i - 1)
    ensures StandsIn(recs, Turns(recs), i)
  {
    TurnCountOfRest(recs, i - 1);
    assert recs[1..][i - 1] == recs[i];
  }

  lemma {:induction false} TurnsConcat(a: seq<Record>, b: seq<Record>)
    ensures Turns(a + b) == Turns(a) + Turns(b)
  {
    if a == [] {
      assert a + b == b;
    } else {
      assert (a + b)[1..] == a[1..] + b;
      TurnsConcat(a[1..], b);
    }
  }

  /** `toolNameFor` */
  method ToolNameFor(recs: seq<Record>, id: string) returns (tool: string)
    ensures tool == FirstTool(recs, id)
  {
    var i := 0;
    assert recs[0..] == recs;
    while i < |recs|
      invariant 0 <= i <= |recs|
      invariant FirstTool(recs, id) == FirstTool(recs[i..], id)
    {
      if recs[i].kind == Tool && recs[i].id == id { return recs[i].tool; }
      i := i + 1;
    }
    return "";
  }

  /** The end of `readBackward`. A result whose id is used exactly once gets that use's name, and its text is
      redacted with that name and that input. */
  method ResolveResults(redact: Redactor, recs: seq<Record>) returns (out: seq<Record>)
    ensures out == Resolve(redact, recs)
    ensures forall i :: 0 <= i < |recs| ==> ComesOut(redact, recs, recs[i], out[i])
    ensures forall i, u :: 0 <= i < |recs| && recs[i].kind == Result && recs[i].id != "" && OnlyUse(recs, u, recs[i].id)
              ==> out[i] == recs[i].(tool := recs[u].tool,
                                     text := redact(recs[u].tool, Some(recs[u].input), recs[i].text))
  {
    out := ResolveAll(redact, recs);
    ResolveComesOut(redact, recs);
    forall i, u | 0 <= i < |recs| && recs[i].kind == Result && recs[i].id != "" && OnlyUse(recs, u, recs[i].id)
      ensures out[i] == recs[i].(tool := recs[u].tool,
                                 text := redact(recs[u].tool, Some(recs[u].input), recs[i].text))
    {
      assert ComesOut(redact, recs, recs[i], out[i]);
      assert FirstUse(recs, u, recs[i].id) && LastUse(recs, u, recs[i].id);
    }
  }

  /** The id is used there and nowhere else. */
  predicate OnlyUse(recs: seq<Record>, u: int, id: string) {
    0 <= u < |recs| && UseOf(recs[u], id) && forall i :: 0 <= i < |recs| && i != u ==> !UseOf(recs[i], id)
  }

  /** The two passes over the records, results rewritten in place. */
  method ResolveAll(redact: Redactor, recs: seq<Record>) returns (out: seq<Record>)
    ensures out == Resolve(redact, recs)
  {
    var inputs: map<string, string> := map[];
    var i := 0;
    while i < |recs|
      invariant 0 <= i <= |recs|
      invariant forall id :: LastInput(recs[..i], id) == if id in inputs then Some(inputs[id]) else None
    {
      assert recs[..i + 1][..i] == recs[..i];
      if recs[i].kind == Tool && recs[i].id != "" {
        inputs := inputs[recs[i].id := recs[i].input];
      }
      i := i + 1;
    }
    assert recs[..i] == recs;
    out := recs;
    i := 0;
    while i < |out|
      invariant 0 <= i <= |out| == |recs|
      invariant forall j :: 0 <= j < i ==> out[j] == ResolveOne(redact, recs, recs[j])
      invariant forall j :: i <= j < |out| ==> out[j] == recs[j]
    {
      if out[i].kind == Result {
        var tool := ToolNameFor(recs, out[i].id);
        var input := if out[i].id in inputs then Some(inputs[out[i].id]) else None;
        out := out[i := out[i].(tool := tool, text := redact(tool, input, out[i].text))];
      }
      i := i + 1;
    }
  }

  /** The stop rule of `TailTurns`: counted over the records so far, newest first. */
  function Enough(n: nat): seq<Record> -> bool {
    (newest: seq<Record>) => |Turns(newest)| >= n
  }

  /** The last `n` turns of the records, or all when there are fewer: in order, each as it comes out of
      resolving. */
  ghost predicate LastTurns(redact: Redactor, recs: seq<Record>, n: nat, turns: seq<Record>) {
    var total := TurnCount(recs, |recs|);
    var left := if total > n then total - n else 0;
    |turns| == total - left && forall i :: 0 <= i < |recs| ==> TurnComesOut(redact, recs, left, turns, i)
  }

  ghost predicate TurnComesOut(redact: Redactor, recs: seq<Record>, left: nat, turns: seq<Record>, i: nat)
    requires i < |recs|
  {
    recs[i].kind != End && left <= TurnCount(recs, i) ==>
      TurnCount(recs, i) - left < |turns| && ComesOut(redact, recs, recs[i], turns[TurnCount(recs, i) - left])
  }

  lemma {:induction false} SameCounts(recs: seq<Record>, out: seq<Record>, i: nat)
    requires |out| == |recs| && i <= |recs| && forall j :: 0 <= j < |recs| ==> out[j].kind == recs[j].kind
    ensures TurnCount(out, i) == TurnCount(recs, i)
  {
    if i > 0 {
      SameCounts(recs, out, i - 1);
    }
  }

  lemma ResolvedCounts(redact: Redactor, recs: seq<Record>, i: nat)
    requires i <= |recs|
    ensures TurnCount(Resolve(redact, recs), i) == TurnCount(recs, i)
  {
    SameCounts(recs, Resolve(redact, recs), i);
  }

  lemma ResolvedTurn(redact: Redactor, recs: seq<Record>, left: nat, i: nat)
    requires i < |recs| && left <= |Turns(Resolve(redact, recs))|
    ensures TurnComesOut(redact, recs, left, Turns(Resolve(redact, recs))[left..], i)
  {
    var out := Resolve(redact, recs);
    TurnsKeepsExactly(out);
    ResolvedCounts(redact, recs, i);
    ResolveOneComesOut(redact, recs, recs[i]);
    assert StandsIn(out, Turns(out), i);
  }

  lemma LastTurnsExactly(redact: Redactor, recs: seq<Record>, n: nat)
    ensures LastTurns(redact, recs, n, Last(Turns(Resolve(redact, recs)), n))
  {
    var turns := Turns(Resolve(redact, recs));
    TurnsKeepsExactly(Resolve(redact, recs));
    ResolvedCounts(redact, recs, |recs|);
    var left := if |turns| > n then |turns| - n else 0;
    assert Last(turns, n) == turns[left..];
    forall i | 0 <= i < |recs|
      ensures TurnComesOut(redact, recs, left, turns[left..], i)
    {
      ResolvedTurn(redact, recs, left, i);
    }
  }

  /** `TailTurns`, before the per-turn cap. */
  method TailOf(file: string, chunk: nat, max: nat, parse: Parser, redact: Redactor, n: nat)
    returns (turns: seq<Record>, from: nat)
    requires chunk >= 1 && parse([]) == Blank
    ensures from <= |file|
    ensures turns == Last(Turns(Resolve(redact, Records(parse, WholeLines(file, from)))), n)
    ensures LastTurns(redact, Records(parse, WholeLines(file, from)), n, turns)
    ensures from == 0 || |file| - from >= max || |Turns(Records(parse, WholeLines(file, from)))| >= n
    ensures forall b: nat :: from < b < |file| && ChunkEnds(file, chunk, b) ==>
              |file| - b < max && |Turns(Records(parse, WholeLines(file, b)))| < n
  {
    var recs, lines;
    recs, lines, from := ReadBackward(file, chunk, max, parse, Enough(n));
    TurnsReverse(recs);
    forall b: nat | from < b < |file| && ChunkEnds(file, chunk, b)
      ensures |file| - b < max && |Turns(Records(parse, WholeLines(file, b)))| < n
    {
      TurnsReverse(Records(parse, WholeLines(file, b)));
    }
    LastTurnsExactly(redact, recs, n);
    var out := ResolveResults(redact, recs);
    turns := Turns(out);
    if |turns| > n { turns := turns[|turns| - n..]; }
  }

  lemma {:induction false} TurnsReverse(recs: seq<Record>)
    ensures |Turns(Reverse(recs))| == |Turns(recs)|
  {
    if recs != [] {
      TurnsReverse(recs[1..]);
      TurnsConcat(Reverse(recs[1..]), [recs[0]]);
    }
  }

  // ---------------------------------------------------------------------------------------
  // The tail read against reading everything
  // ---------------------------------------------------------------------------------------

  /** Reading from the front is reading the part before `from`, then the tail. */
  lemma TailIsSuffix(parse: Parser, file: string, from: nat) returns (before: seq<Record>)
    requires from <= |file|
    ensures Records(parse, Split(file, NL)) == before + Records(parse, WholeLines(file, from))
  {
    if from == 0 {
      before := [];
    } else {
      var front, back := Split(file[..from], NL), Split(file[from..], NL);
      assert file == file[..from] + file[from..];
      SplitConcat(file[..from], file[from..], NL);
      var head := front[..|front| - 1] + [front[|front| - 1] + back[0]];
      assert Split(file, NL) == head + back[1..];
      RecordsConcat(parse, head, back[1..]);
      before := Records(parse, head);
    }
  }

  /** Where a name and an input come from when more of the file is read. */
  lemma {:induction false} MoreIsRead(before: seq<Record>, recs: seq<Record>, id: string)
    ensures FirstTool(before + recs, id) == if HasUse(before, id) then FirstTool(before, id) else FirstTool(recs, id)
    ensures id != "" && !HasUse(before, id) ==> LastInput(before + recs, id) == LastInput(recs, id)
    decreases |before| + |recs|
  {
    if before == [] {
      assert before + recs == recs;
    } else {
      assert (before + recs)[1..] == before[1..] + recs;
      MoreIsRead(before[1..], recs, id);
      if HasUse(before[1..], id) {
        var i :| 0 <= i < |before[1..]| && UseOf(before[1..][i], id);
        assert UseOf(before[i + 1], id);
      }
      if !HasUse(before, id) {
        assert !UseOf(before[0], id);
        assert forall i :: 0 <= i < |before[1..]| ==> before[1..][i] == before[i + 1];
        InputBehind(before, recs, id);
      }
    }
  }

  lemma {:induction false} InputBehind(before: seq<Record>, recs: seq<Record>, id: string)
    requires !HasUse(before, id)
    ensures LastInput(before + recs, id) == LastInput(recs, id)
    decreases |before| + |recs|
  {
    var all := before + recs;
    if recs != [] {
      assert all[..|all| - 1] == before + recs[..|recs| - 1];
      InputBehind(before, recs[..|recs| - 1], id);
    } else if before != [] {
      assert all == before && !UseOf(before[|before| - 1], id);
      assert all[..|all| - 1] == before[..|before| - 1] + [];
      assert forall i :: 0 <= i < |before| - 1 ==> before[..|before| - 1][i] == before[i];
      InputBehind(before[..|before| - 1], [], id);
    }
  }

  // ---------------------------------------------------------------------------------------
  // Resolving turn by turn
  // ---------------------------------------------------------------------------------------

  /** Turns resolved against `all`. */
  function Resolved(redact: Redactor, all: seq<Record>, turns: seq<Record>): (out: seq<Record>)
    ensures |out| == |turns| && forall i :: 0 <= i < |turns| ==> out[i] == ResolveOne(redact, all, turns[i])
  {
    seq(|turns|, i requires 0 <= i < |turns| => ResolveOne(redact, all, turns[i]))
  }

  lemma {:induction false} TurnsOfResolved(redact: Redactor, all: seq<Record>, recs: seq<Record>)
    ensures Turns(Resolved(redact, all, recs)) == Resolved(redact, all, Turns(recs))
  {
    if recs != [] {
      var out := Resolved(redact, all, recs);
      assert out[1..] == Resolved(redact, all, recs[1..]);
      TurnsOfResolved(redact, all, recs[1..]);
    }
  }

  lemma LastOfResolved(redact: Redactor, all: seq<Record>, recs: seq<Record>, n: nat)
    ensures Last(Turns(Resolved(redact, all, recs)), n) == Resolved(redact, all, Last(Turns(recs), n))
  {
    TurnsOfResolved(redact, all, recs);
    LastResolved(redact, all, Turns(recs), n);
  }

  lemma LastResolved(redact: Redactor, all: seq<Record>, turns: seq<Record>, n: nat)
    ensures Last(Resolved(redact, all, turns), n) == Resolved(redact, all, Last(turns, n))
  {
    var a, b := Last(Resolved(redact, all, turns), n), Resolved(redact, all, Last(turns, n));
    assert |a| == |b| && forall i :: 0 <= i < |a| ==> a[i] == b[i];
  }

  lemma NewestOfConcat<T>(a: seq<T>, b: seq<T>, n: nat)
    requires a == [] || |b| >= n
    ensures Last(a + b, n) == Last(b, n)
  {
    if a == [] {
      assert a + b == b;
    }
  }

  /** The newest turns of `recs` are those of more records before them, each resolved against what was read. */
  lemma NewestTurns(redact: Redactor, before: seq<Record>, recs: seq<Record>, n: nat)
    requires before == [] || |Turns(recs)| >= n
    ensures Last(Turns(Resolve(redact, recs)), n) == Resolved(redact, recs, Last(Turns(recs), n))
    ensures Last(Turns(Resolve(redact, before + recs)), n) == Resolved(redact, before + recs, Last(Turns(recs), n))
  {
    var all := before + recs;
    assert Resolve(redact, recs) == Resolved(redact, recs, recs);
    assert Resolve(redact, all) == Resolved(redact, all, all);
    LastOfResolved(redact, recs, recs, n);
    LastOfResolved(redact, all, all, n);
    TurnsConcat(before, recs);
    NewestOfConcat(Turns(before), Turns(recs), n);
  }

  /** None of the turns is the result of a tool use in `before`. */
  predicate NoneAnswers(before: seq<Record>, turns: seq<Record>) {
    forall i :: 0 <= i < |turns| && turns[i].kind == Result ==> !HasUse(before, turns[i].id)
  }

  /** A tool use id is used on one side only, and every tool has a name. */
  ghost predicate NamedOnce(before: seq<Record>, recs: seq<Record>) {
    && (forall id :: HasUse(before, id) ==> !HasUse(recs, id))
    && forall r :: r in before && r.kind == Tool ==> r.tool != ""
  }

  lemma {:induction false} NoUseNoName(recs: seq<Record>, id: string)
    ensures !HasUse(recs, id) ==> FirstTool(recs, id) == ""
    ensures HasUse(recs, id) && (forall r :: r in recs && r.kind == Tool ==> r.tool != "") ==> FirstTool(recs, id) != ""
  {
    if recs != [] {
      var rest := recs[1..];
      NoUseNoName(rest, id);
      assert forall i :: 0 <= i < |rest| ==> rest[i] == recs[i + 1];
      if !HasUse(recs, id) {
        assert !UseOf(recs[0], id);
      } else if !UseOf(recs[0], id) {
        var i :| 0 <= i < |recs| && UseOf(recs[i], id);
        assert UseOf(rest[i - 1], id);
      }
    }
  }

  /** A result reads the same with more of the file exactly when the part before does not hold its use. */
  lemma SameResultExactly(redact: Redactor, before: seq<Record>, recs: seq<Record>, r: Record)
    requires r.kind == Result
    ensures !HasUse(before, r.id) ==> ResolveOne(redact, recs, r) == ResolveOne(redact, before + recs, r)
    ensures NamedOnce(before, recs)
            ==> (ResolveOne(redact, recs, r) == ResolveOne(redact, before + recs, r) <==> !HasUse(before, r.id))
  {
    MoreIsRead(before, recs, r.id);
    NoUseNoName(before, r.id);
    NoUseNoName(recs, r.id);
  }

  lemma SameTurnsExactly(redact: Redactor, before: seq<Record>, recs: seq<Record>, turns: seq<Record>)
    ensures NoneAnswers(before, turns) ==> Resolved(redact, recs, turns) == Resolved(redact, before + recs, turns)
    ensures NamedOnce(before, recs)
            ==> (Resolved(redact, recs, turns) == Resolved(redact, before + recs, turns)
                 <==> NoneAnswers(before, turns))
  {
    var one, other := Resolved(redact, recs, turns), Resolved(redact, before + recs, turns);
    forall i | 0 <= i < |turns|
      ensures turns[i].kind == Result && !HasUse(before, turns[i].id) ==> one[i] == other[i]
      ensures turns[i].kind == Result && NamedOnce(before, recs) ==>
                (one[i] == other[i] <==> !HasUse(before, turns[i].id))
    {
      if turns[i].kind == Result {
        SameResultExactly(redact, before, recs, turns[i]);
      }
    }
    if one == other {
      assert forall i :: 0 <= i < |turns| ==> one[i] == other[i];
    }
  }

  /** The tail read against the forward read. When it read the whole file, or stopped because it had enough
      turns, its answer is the last `n` turns of reading everything if none of the turns returned answers a
      tool use before the part read; and, ids being used once and tools having names, only if. */
  lemma TailIsForwardExactly(file: string, parse: Parser, redact: Redactor, n: nat, from: nat)
    returns (before: seq<Record>)
    requires from <= |file|
    requires from == 0 || |Turns(Records(parse, WholeLines(file, from)))| >= n
    ensures Records(parse, Split(file, NL)) == before + Records(parse, WholeLines(file, from))
    ensures var recs := Records(parse, WholeLines(file, from));
            var forward := Last(Turns(Resolve(redact, Records(parse, Split(file, NL)))), n);
            && (NoneAnswers(before, Last(Turns(recs), n)) ==> Last(Turns(Resolve(redact, recs)), n) == forward)
            && (NamedOnce(before, recs)
                ==> (Last(Turns(Resolve(redact, recs)), n) == forward <==> NoneAnswers(before, Last(Turns(recs), n))))
  {
    before := TailIsSuffix(parse, file, from);
    var recs := Records(parse, WholeLines(file, from));
    if from == 0 {
      assert |before| == 0;
    }
    NewestTurns(redact, before, recs, n);
    SameTurnsExactly(redact, before, recs, Last(Turns(recs), n));
  }

  /** What the reader then sees: the result of a use before the part read is reported and redacted as one
      of no known tool. */
  lemma ResultWithoutItsUse(redact: Redactor, before: seq<Record>, recs: seq<Record>, i: nat)
    requires i < |recs| && recs[i].kind == Result && HasUse(before, recs[i].id) && !HasUse(recs, recs[i].id)
    ensures ResolveOne(redact, recs, recs[i]) == recs[i].(tool := "", text := redact("", None, recs[i].text))
    ensures ResolveOne(redact, before + recs, recs[i]).tool == FirstTool(before, recs[i].id)
  {
    MoreIsRead(before, recs, recs[i].id);
    MoreIsRead(recs, [], recs[i].id);
    InputBehind(recs, [], recs[i].id);
    assert recs + [] == recs;
  }
}
