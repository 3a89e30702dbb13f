/** `peertail.Read`: the per-turn cap, the turn limit and the call ceiling, and where every source
    byte goes. */
module Budget {
  import opened Folds
  import opened Utf8Cut

  const TEXT_CAP_DEFAULT: nat := 2048
  const TEXT_CAP_MESSAGE: nat := 16384
  const CALL_CAP_BYTES: nat := 65536
  const REPLY_TURNS_MAX: nat := 100

  /** One returned turn: its text after the cap, the size of its source, and what the cap cut. */
  datatype Turn = Turn(text: seq<Byte>, srcLen: nat, truncated: nat)

  datatype Outcome = Outcome(turns: seq<Turn>, omitted: nat, truncatedBytes: nat)

  /** One source text through the per-turn cap. */
  function TurnOf(src: seq<Byte>, perTurn: int): Turn {
    Turn(CapSpec(src, perTurn), |src|, |src| - KeptSpec(src, perTurn))
  }

  function TurnsOf(srcs: seq<seq<Byte>>, perTurn: int): (r: seq<Turn>)
    ensures |r| == |srcs|
    ensures forall i :: 0 <= i < |srcs| ==> r[i] == TurnOf(srcs[i], perTurn)
  {
    if srcs == [] then [] else [TurnOf(srcs[0], perTurn)] + TurnsOf(srcs[1..], perTurn)
  }

  function TextSize(turns: seq<Turn>): nat {
    Total((t: Turn) => |t.text|, turns)
  }

  function SourceSize(srcs: seq<seq<Byte>>): nat {
    Total((s: seq<Byte>) => |s|, srcs)
  }

  /** The source bytes that are still there in the returned turns, markers not counted. */
  function KeptSize(srcs: seq<seq<Byte>>, perTurn: int): nat {
    Total((s: seq<Byte>) => KeptSpec(s, perTurn), srcs)
  }

  function SrcLens(turns: seq<Turn>): nat {
    Total((t: Turn) => t.srcLen, turns)
  }

  function Cuts(turns: seq<Turn>): nat {
    Total((t: Turn) => t.truncated, turns)
  }

  /** `turnsOf` */
  method CapTurns(srcs: seq<seq<Byte>>, perTurn: int) returns (turns: seq<Turn>)
    ensures turns == TurnsOf(srcs, perTurn)
  {
    turns := [];
    var i := 0;
    while i < |srcs|
      invariant 0 <= i <= |srcs|
      invariant turns == TurnsOf(srcs, perTurn)[..i]
    {
      var t := CapTurn(srcs[i], perTurn);
      turns := turns + [t];
      i := i + 1;
    }
  }

  method CapTurn(src: seq<Byte>, perTurn: int) returns (t: Turn)
    ensures t == TurnOf(src, perTurn)
  {
    t := Turn(src, |src|, 0);
    var kept := KeptLen(src, perTurn);
    if kept < |src| {
      var text := Cap(src, perTurn);
      t := Turn(text, |src|, |src| - kept);
    }
  }

  lemma OneMoreFits(turns: seq<Turn>, i: nat)
    requires i < |turns|
    ensures TextSize(turns[i..]) == |turns[i].text| + TextSize(turns[i + 1..])
  {
    TotalFrom((t: Turn) => |t.text|, turns, i);
  }

  lemma {:induction false} ShorterFits(turns: seq<Turn>, i: nat, j: nat)
    requires i <= j <= |turns|
    ensures TextSize(turns[i..]) >= TextSize(turns[j..])
    decreases j - i
  {
    if i < j {
      OneMoreFits(turns, i);
      ShorterFits(turns, i + 1, j);
    }
  }

  /** The turns from `start` on are the longest run of newest turns whose texts fit the ceiling; the newest
      one is kept whatever its size. */
  ghost predicate LongestRun(turns: seq<Turn>, start: nat) {
    && start <= |turns| && (turns != [] ==> start < |turns|)
    && (start + 1 >= |turns| || TextSize(turns[start..]) <= CALL_CAP_BYTES)
    && forall i: nat :: i < start ==> TooLong(turns, i)
  }

  /** The turns from `i` on overflow the ceiling. */
  ghost predicate TooLong(turns: seq<Turn>, i: nat) {
    i <= |turns| && TextSize(turns[i..]) > CALL_CAP_BYTES
  }

  /** The ceiling loop, newest turn first. */
  method Ceiling(turns: seq<Turn>) returns (start: nat)
    ensures LongestRun(turns, start)
  {
    var total := 0;
    start := |turns|;
    assert turns[start..] == [];
    while start > 0
      invariant 0 <= start <= |turns|
      invariant total == TextSize(turns[start..])
      invariant start < |turns| - 1 ==> total <= CALL_CAP_BYTES
    {
      var i := start - 1;
      OneMoreFits(turns, i);
      if total + |turns[i].text| > CALL_CAP_BYTES && i < |turns| - 1 {
        forall k: nat | k < start
          ensures TooLong(turns, k)
        {
          ShorterFits(turns, k, i);
        }
        return;
      }
      total := total + |turns[i].text|;
      start := i;
    }
  }

  /** What a call owes its reader: every turn returned or counted, the returned ones the longest run
      of newest turns under the limit and the ceiling, and every source byte after the turn limit
      kept or counted. */
  ghost predicate Accounted(srcs: seq<seq<Byte>>, perTurn: int, first: nat, r: Outcome) {
    && first <= r.omitted <= |srcs|
    && var recent := srcs[first..];
       AccountedIn(recent, TurnsOf(recent, perTurn), perTurn, r.omitted - first, r.turns, r.truncatedBytes)
  }

  /** The same for the turns under the limit. */
  ghost predicate AccountedIn(recent: seq<seq<Byte>>, turns: seq<Turn>, perTurn: int, start: nat, kept: seq<Turn>,
                              truncated: nat)
  {
    && start <= |recent| && |turns| == |recent| && LongestRun(turns, start) && kept == turns[start..]
    && SourceSize(recent) == KeptSize(recent[start..], perTurn) + truncated
  }

  /** Where the turn limit cuts. */
  function FirstUnder(n: nat, limit: nat): nat {
    if n > limit then n - limit else 0
  }

  /** All are under the limit, or exactly as many as it allows. */
  lemma FirstUnderExactly(n: nat, limit: nat)
    ensures FirstUnder(n, limit) <= n && n - FirstUnder(n, limit) <= limit
    ensures FirstUnder(n, limit) > 0 ==> n - FirstUnder(n, limit) == limit
  {
  }

  /** `Read`, from the source texts of the records it selected (END markers dropped). */
  method Read(srcs: seq<seq<Byte>>, perTurn: int, limit: nat) returns (r: Outcome)
    requires limit >= 1
    ensures Accounted(srcs, perTurn, FirstUnder(|srcs|, limit), r)
    ensures |r.turns| + r.omitted == |srcs|
  {
    var turns := CapTurns(srcs, perTurn);
    var omitted := 0;
    if |turns| > limit {
      omitted := |turns| - limit;
      turns := turns[omitted..];
    }
    TurnsOfRecent(srcs, perTurn, omitted);
    var start, kept, truncated := KeepNewest(srcs[omitted..], turns, perTurn);
    r := Outcome(kept, omitted + start, truncated);
  }

  lemma TurnsOfRecent(srcs: seq<seq<Byte>>, perTurn: int, first: nat)
    requires first <= |srcs|
    ensures TurnsOf(srcs, perTurn)[first..] == TurnsOf(srcs[first..], perTurn)
  {
  }

  /** Under the ceiling: what is returned of the turns, and the source bytes that are not. */
  method KeepNewest(recent: seq<seq<Byte>>, turns: seq<Turn>, perTurn: int)
    returns (start: nat, kept: seq<Turn>, truncated: nat)
    requires turns == TurnsOf(recent, perTurn)
    ensures AccountedIn(recent, turns, perTurn, start, kept, truncated)
  {
    start := Ceiling(turns);
    kept, truncated := DropOldest(turns, start);
    var cut := SumCuts(kept);
    truncated := truncated + cut;
    Account(recent, turns, perTurn, start);
  }

  lemma SourceSplit(srcs: seq<seq<Byte>>, start: nat)
    requires start <= |srcs|
    ensures SourceSize(srcs) == SourceSize(srcs[..start]) + SourceSize(srcs[start..])
  {
    TotalConcat((s: seq<Byte>) => |s|, srcs[..start], srcs[start..]);
    assert srcs == srcs[..start] + srcs[start..];
  }

  lemma Account(srcs: seq<seq<Byte>>, turns: seq<Turn>, perTurn: int, start: nat)
    requires |srcs| == |turns| && start <= |srcs| && forall i :: 0 <= i < |srcs| ==>
               turns[i] == TurnOf(srcs[i], perTurn)
    ensures SourceSize(srcs) == KeptSize(srcs[start..], perTurn) + (SrcLens(turns[..start]) + Cuts(turns[start..]))
  {
    SourceSplit(srcs, start);
    Conserved(srcs[..start], srcs[start..], turns[..start], turns[start..], perTurn);
  }

  /** Keeps the newest turns and counts the source bytes of the others. */
  method DropOldest(turns: seq<Turn>, start: nat) returns (kept: seq<Turn>, bytes: nat)
    requires start <= |turns|
    ensures kept == turns[start..] && bytes == SrcLens(turns[..start])
  {
    bytes := 0;
    kept := turns[start..];
    if start > 0 { bytes := SumSrcLens(turns[..start]); }
  }

  method SumSrcLens(turns: seq<Turn>) returns (n: nat)
    ensures n == SrcLens(turns)
  {
    n := 0;
    var i := 0;
    while i < |turns|
      invariant 0 <= i <= |turns| && n == SrcLens(turns[..i])
    {
      assert turns[..i + 1][..i] == turns[..i];
      n := n + turns[i].srcLen;
      i := i + 1;
    }
    assert turns[..i] == turns;
  }

  method SumCuts(turns: seq<Turn>) returns (n: nat)
    ensures n == Cuts(turns)
  {
    n := 0;
    var i := 0;
    while i < |turns|
      invariant 0 <= i <= |turns| && n == Cuts(turns[..i])
    {
      assert turns[..i + 1][..i] == turns[..i];
      n := n + turns[i].truncated;
      i := i + 1;
    }
    assert turns[..i] == turns;
  }

  /** Byte conservation: the sources after the turn limit are the dropped turns whole, what the returned
      turns kept, and what their caps cut. */
  lemma Conserved(dropped: seq<seq<Byte>>, returned: seq<seq<Byte>>, droppedTurns: seq<Turn>, turns: seq<Turn>,
                  perTurn: int)
    requires |dropped| == |droppedTurns| && forall i :: 0 <= i < |dropped| ==>
               droppedTurns[i] == TurnOf(dropped[i], perTurn)
    requires |returned| == |turns| && forall i :: 0 <= i < |returned| ==> turns[i] == TurnOf(returned[i], perTurn)
    ensures SourceSize(dropped) + SourceSize(returned)
            == SrcLens(droppedTurns) + KeptSize(returned, perTurn) + Cuts(turns)
  {
    TotalSame((s: seq<Byte>) => |s|, (t: Turn) => t.srcLen, dropped, droppedTurns);
    forall i | 0 <= i < |returned|
      ensures |returned[i]| == KeptSpec(returned[i], perTurn) + turns[i].truncated
    {
      OneConserved(returned[i], perTurn);
    }
    TotalSplits((s: seq<Byte>) => |s|, (s: seq<Byte>) => KeptSpec(s, perTurn),
                (t: Turn) => t.truncated, returned, turns);
  }

  lemma OneConserved(src: seq<Byte>, perTurn: int)
    ensures |src| == KeptSpec(src, perTurn) + TurnOf(src, perTurn).truncated
  {
    CapCutsWhereKeptLenCounts(src, perTurn);
  }

  lemma {:induction false} FewDigits(k: nat, bound: nat, d: nat)
    requires d >= 1 && k < bound && bound == Tens(d)
    ensures |Digits(k)| <= d
    decreases d
  {
    if d > 1 && k >= 10 {
      FewDigits(k / 10, Tens(d - 1), d - 1);
    }
  }

  function Tens(d: nat): nat {
    if d == 0 then 1 else 10 * Tens(d - 1)
  }

  lemma TwentyDigits(k: nat)
    requires k < 0x8000_0000_0000_0000
    ensures |Digits(k)| <= 20
  {
    assert Tens(5) == 100_000;
    assert Tens(10) == 100_000 * Tens(5);
    assert Tens(15) == 100_000 * Tens(10);
    assert Tens(20) == 100_000 * Tens(15);
    FewDigits(k, Tens(20), 20);
  }

  /** A capped text is at most its cap and a marker, for every text Go can hold (under 2^63 bytes). */
  lemma CappedSize(s: seq<Byte>, perTurn: int)
    requires 0 < perTurn && |s| < 0x8000_0000_0000_0000
    ensures |CapSpec(s, perTurn)| <= perTurn + 42
  {
    TwentyDigits(|s| - KeptSpec(s, perTurn));
    MarkerSize(|s| - KeptSpec(s, perTurn));
  }

  lemma MarkerSize(k: nat)
    ensures |Marker(k)| == 22 + |Digits(k)|
  {
  }

  /** What a call returns never exceeds the ceiling, for both per-turn caps: the newest turn alone
      cannot overflow it. */
  lemma CallFits(srcs: seq<seq<Byte>>, perTurn: int, limit: nat, r: Outcome)
    requires 0 < perTurn <= TEXT_CAP_MESSAGE && forall i :: 0 <= i < |srcs| ==> |srcs[i]| < 0x8000_0000_0000_0000
    requires limit >= 1 && Accounted(srcs, perTurn, FirstUnder(|srcs|, limit), r)
    ensures TextSize(r.turns) <= CALL_CAP_BYTES
  {
    if |r.turns| == 1 {
      OneFits(srcs[|srcs| - 1], perTurn);
      assert r.turns == [TurnOf(srcs[|srcs| - 1], perTurn)];
    }
  }

  lemma OneFits(src: seq<Byte>, perTurn: int)
    requires 0 < perTurn <= TEXT_CAP_MESSAGE && |src| < 0x8000_0000_0000_0000
    ensures TextSize([TurnOf(src, perTurn)]) <= CALL_CAP_BYTES
  {
    var t := TurnOf(src, perTurn);
    CappedSize(src, perTurn);
    OneMoreFits([t], 0);
    assert [t][0..] == [t] && [t][1..] == [];
  }
}
