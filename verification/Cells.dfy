/** Terminal cells: the visible width of a text with SGR escape sequences (ECMA-48 section 8.3.117) in it,
    and cutting or padding it to a width. Texts are sequences of runes. */
module Cells {

  const ESC: char := '\U{1b}'
  const ELLIPSIS: char := '\U{2026}'

  /** Which runes take two cells. */
  type Wide = char -> bool

  predicate Parameter(c: char) {
    '0' <= c <= '9' || c == ';'
  }

  /** Where the parameters read from `k` on end with their `m`; 0 when they do not. */
  function ParametersEnd(s: string, k: nat): (n: nat)
    ensures n <= |s| && (n > 0 ==> n > k)
    decreases |s| - k
  {
    if k >= |s| then 0
    else if s[k] == 'm' then k + 1
    else if Parameter(s[k]) then ParametersEnd(s, k + 1)
    else 0
  }

  /** Where the SGR sequence at `i` ends; 0 when there is none. */
  function SgrEnd(s: string, i: nat): (n: nat)
    ensures n <= |s| && (n > 0 ==> n > i)
  {
    if i + 1 < |s| && s[i] == ESC && s[i + 1] == '[' then ParametersEnd(s, i + 2) else 0
  }

  function StripFrom(s: string, i: nat): string
    decreases |s| - i
  {
    if i >= |s| then []
    else if SgrEnd(s, i) > 0 then StripFrom(s, SgrEnd(s, i))
    else [s[i]] + StripFrom(s, i + 1)
  }

  /** `stripANSI` */
  function Strip(s: string): string {
    StripFrom(s, 0)
  }

  function RuneCells(wide: Wide, c: char): nat {
    if wide(c) then 2 else 1
  }

  function Count(wide: Wide, s: string): nat {
    if s == [] then 0 else Count(wide, s[..|s| - 1]) + RuneCells(wide, s[|s| - 1])
  }

  /** `cellWidth` */
  function Width(wide: Wide, s: string): nat {
    Count(wide, Strip(s))
  }

  predicate PlainFrom(s: string, i: nat)
    decreases |s| - i
  {
    if i >= |s| then true
    else if SgrEnd(s, i) > 0 then PlainFrom(s, SgrEnd(s, i))
    else s[i] != ESC && PlainFrom(s, i + 1)
  }

  /** Every escape in the text starts an SGR sequence. */
  predicate Plain(s: string) {
    PlainFrom(s, 0)
  }

  /** The runes the renderer itself adds take one cell. */
  predicate Narrow(wide: Wide) {
    !wide(ELLIPSIS) && !wide(' ')
  }

  lemma {:induction false} ParametersExactly(s: string, k: nat, n: nat)
    requires k < n <= |s|
    ensures ParametersEnd(s, k) == n
            <==> s[n - 1] == 'm' && forall j :: k <= j < n - 1 ==> '0' <= s[j] <= '9' || s[j] == ';'
    decreases n - k
  {
    if k < n - 1 && s[k] != 'm' && Parameter(s[k]) {
      ParametersExactly(s, k + 1, n);
    }
  }

  /** An SGR sequence is the escape, a bracket, digits and semicolons, and an `m`. It takes no cells, and a text of
      nothing else is plain. */
  lemma SgrExactly(wide: Wide, s: string, i: nat, n: nat)
    requires i < n <= |s|
    ensures SgrEnd(s, i) == n
            <==> && i + 2 < n && s[i] == ESC && s[i + 1] == '[' && s[n - 1] == 'm'
                 && forall j :: i + 2 <= j < n - 1 ==> '0' <= s[j] <= '9' || s[j] == ';'
    ensures i == 0 && SgrEnd(s, 0) == n == |s| ==> Plain(s) && Width(wide, s) == 0
  {
    if i + 2 < n {
      ParametersExactly(s, i + 2, n);
    }
    if i == 0 && SgrEnd(s, 0) == n == |s| {
      assert StripFrom(s, |s|) == [];
      assert Strip(s) == [];
    }
  }

  lemma {:induction false} EndOfConcat(s: string, t: string, k: nat)
    requires ParametersEnd(s, k) > 0
    ensures ParametersEnd(s + t, k) == ParametersEnd(s, k)
    decreases |s| - k
  {
    if s[k] != 'm' {
      EndOfConcat(s, t, k + 1);
    }
  }

  lemma {:induction false} EndShifts(s: string, t: string, k: nat)
    ensures ParametersEnd(s + t, |s| + k) == if ParametersEnd(t, k) > 0 then |s| + ParametersEnd(t, k) else 0
    decreases |t| - k
  {
    if k < |t| && t[k] != 'm' && Parameter(t[k]) {
      EndShifts(s, t, k + 1);
    }
  }

  lemma SgrShifts(s: string, t: string, k: nat)
    requires k < |t|
    ensures (s + t)[|s| + k] == t[k]
    ensures SgrEnd(s + t, |s| + k) == if SgrEnd(t, k) > 0 then |s| + SgrEnd(t, k) else 0
  {
    EndShifts(s, t, k + 2);
  }

  lemma {:induction false} StripShifts(s: string, t: string, k: nat)
    ensures StripFrom(s + t, |s| + k) == StripFrom(t, k)
    decreases |t| - k
  {
    if k < |t| {
      SgrShifts(s, t, k);
      StripShifts(s, t, if SgrEnd(t, k) > 0 then SgrEnd(t, k) else k + 1);
    }
  }

  lemma {:induction false} PlainShifts(s: string, t: string, k: nat)
    ensures PlainFrom(s + t, |s| + k) <==> PlainFrom(t, k)
    decreases |t| - k
  {
    if k < |t| {
      SgrShifts(s, t, k);
      PlainShifts(s, t, if SgrEnd(t, k) > 0 then SgrEnd(t, k) else k + 1);
    }
  }

  lemma {:induction false} ConcatFrom(s: string, t: string, i: nat)
    requires i <= |s| && PlainFrom(s, i)
    ensures StripFrom(s + t, i) == StripFrom(s, i) + Strip(t)
    ensures PlainFrom(s + t, i) <==> Plain(t)
    decreases |s| - i
  {
    if i == |s| {
      StripShifts(s, t, 0);
      PlainShifts(s, t, 0);
    } else {
      SgrOfConcat(s, t, i);
      if SgrEnd(s, i) > 0 {
        ConcatFrom(s, t, SgrEnd(s, i));
      } else {
        ConcatFrom(s, t, i + 1);
        OneThenTwo([s[i]], StripFrom(s, i + 1), Strip(t));
      }
    }
  }

  lemma OneThenTwo(a: string, b: string, c: string)
    ensures a + (b + c) == a + b + c
  {
  }

  lemma SgrOfConcat(s: string, t: string, i: nat)
    requires i < |s| && PlainFrom(s, i)
    ensures SgrEnd(s + t, i) == SgrEnd(s, i) && (s + t)[i] == s[i]
  {
    if SgrEnd(s, i) > 0 {
      EndOfConcat(s, t, i + 2);
    }
  }

  /** Whole pieces are stripped each on its own. */
  lemma StripConcat(s: string, t: string)
    requires Plain(s)
    ensures Strip(s + t) == Strip(s) + Strip(t) && (Plain(s + t) <==> Plain(t))
  {
    ConcatFrom(s, t, 0);
  }

  lemma {:induction false} CountConcat(wide: Wide, s: string, t: string)
    ensures Count(wide, s + t) == Count(wide, s) + Count(wide, t)
  {
    if t == [] {
      assert s + t == s;
    } else {
      CountConcat(wide, s, t[..|t| - 1]);
      assert (s + t)[..|s + t| - 1] == s + t[..|t| - 1];
    }
  }

  lemma WidthConcat(wide: Wide, s: string, t: string)
    requires Plain(s)
    ensures Width(wide, s + t) == Width(wide, s) + Width(wide, t)
    ensures Plain(t) ==> Plain(s + t)
  {
    StripConcat(s, t);
    CountConcat(wide, Strip(s), Strip(t));
  }

  lemma OneRune(wide: Wide, c: char)
    requires c != ESC
    ensures Strip([c]) == [c] && Plain([c]) && Width(wide, [c]) == RuneCells(wide, c) == if wide(c) then 2 else 1
  {
    assert StripFrom([c], 0) == [c] + StripFrom([c], 1);
    assert Count(wide, [c]) == Count(wide, []) + RuneCells(wide, c);
  }

  /** Escapes that take no cells, such as the reset. */
  predicate Invisible(s: string) {
    Plain(s) && Strip(s) == []
  }

  /** The end of the copied escape: behind the first `m` from `k` on. */
  function UpToM(s: string, k: nat): (n: nat)
    requires k <= |s|
    ensures k <= n <= |s|
    decreases |s| - k
  {
    if k == |s| then k else if s[k] == 'm' then k + 1 else UpToM(s, k + 1)
  }

  lemma {:induction false} EndIsAtM(s: string, k: nat, i: nat)
    requires i <= k <= |s| && ParametersEnd(s, k) > 0
    ensures UpToM(s, k) == ParametersEnd(s, k)
    ensures ParametersEnd(s[i..UpToM(s, k)], k - i) == UpToM(s, k) - i
    decreases |s| - k
  {
    if s[k] != 'm' {
      EndIsAtM(s, k + 1, i);
    }
  }

  /** Copying an escape up to its `m` copies exactly the SGR sequence. */
  lemma EscapeIsSgr(s: string, i: nat)
    requires i < |s| && s[i] == ESC && PlainFrom(s, i)
    ensures UpToM(s, i) == SgrEnd(s, i) > i
    ensures Plain(s[i..UpToM(s, i)]) && Strip(s[i..UpToM(s, i)]) == []
  {
    EndIsAtM(s, i + 2, i);
    var head := s[i..UpToM(s, i + 2)];
    assert UpToM(s, i + 1) == UpToM(s, i + 2);
    assert SgrEnd(head, 0) == |head|;
    assert StripFrom(head, |head|) == [];
  }

  // ---------------------------------------------------------------------------------------
  // Cutting
  // ---------------------------------------------------------------------------------------

  /** The number of runes that fit into `w` cells. */
  function Fitting(wide: Wide, s: string, w: nat): (n: nat)
    ensures n <= |s|
  {
    if s == [] || Count(wide, s) <= w then |s| else Fitting(wide, s[..|s| - 1], w)
  }

  lemma {:induction false} CountGrows(wide: Wide, s: string, n: nat)
    requires n <= |s|
    ensures Count(wide, s[..n]) + (|s| - n) <= Count(wide, s)
  {
    if n == |s| {
      assert s[..n] == s;
    } else {
      var front := s[..|s| - 1];
      CountGrows(wide, front, n);
      assert front[..n] == s[..n];
    }
  }

  /** The longest prefix that fits. */
  lemma {:induction false} FittingIsLongest(wide: Wide, s: string, w: nat)
    ensures var n := Fitting(wide, s, w);
            && Count(wide, s[..n]) <= w
            && (n < |s| ==> Count(wide, s[..n]) + RuneCells(wide, s[n]) > w)
    ensures forall n: nat :: n <= |s| && Count(wide, s[..n]) <= w ==> n <= Fitting(wide, s, w)
  {
    if s == [] || Count(wide, s) <= w {
      assert s[..|s|] == s;
    } else {
      var front := s[..|s| - 1];
      FittingIsLongest(wide, front, w);
      assert forall n: nat :: n <= |front| ==> front[..n] == s[..n];
      assert s[..|s|] == s;
      var n := Fitting(wide, front, w);
      if n == |front| {
        assert s[..n] == front;
      } else {
        assert front[n] == s[n];
      }
    }
  }

  lemma Longer(wide: Wide, s: string, n: nat)
    requires n < |s|
    ensures Count(wide, s[..n + 1]) == Count(wide, s[..n]) + RuneCells(wide, s[n])
  {
    assert s[..n + 1][..n] == s[..n];
  }

  lemma FittingUnique(wide: Wide, s: string, w: nat, n: nat)
    requires n < |s| && Count(wide, s[..n]) <= w < Count(wide, s[..n]) + RuneCells(wide, s[n])
    ensures n == Fitting(wide, s, w)
  {
    FittingIsLongest(wide, s, w);
    var m := Fitting(wide, s, w);
    if m > n {
      assert s[..m][..n + 1] == s[..n + 1];
      Longer(wide, s, n);
      CountGrows(wide, s[..m], n + 1);
    }
  }

  /** The copy loop has taken the first `i` runes into `b`. */
  predicate Copied(wide: Wide, s: string, b: string, i: nat, cells: int) {
    Plain(b) && PlainFrom(s, i) && Strip(s) == Strip(b) + StripFrom(s, i) && cells == Count(wide, Strip(b))
  }

  lemma CopyEscape(wide: Wide, s: string, b: string, i: nat, cells: int)
    requires i < |s| && s[i] == ESC && Copied(wide, s, b, i, cells)
    ensures i < UpToM(s, i) && Copied(wide, s, b + s[i..UpToM(s, i)], UpToM(s, i), cells)
  {
    EscapeIsSgr(s, i);
    StripConcat(b, s[i..UpToM(s, i)]);
    assert Strip(b) + [] == Strip(b);
  }

  lemma CopyRune(wide: Wide, s: string, b: string, i: nat, cells: int)
    requires i < |s| && s[i] != ESC && Copied(wide, s, b, i, cells)
    ensures StripFrom(s, i) == [s[i]] + StripFrom(s, i + 1)
    ensures Copied(wide, s, b + [s[i]], i + 1, cells + RuneCells(wide, s[i]))
  {
    var c := s[i];
    OneRune(wide, c);
    StripConcat(b, [c]);
    CountConcat(wide, Strip(b), [c]);
    assert Strip(b) + ([c] + StripFrom(s, i + 1)) == Strip(b) + [c] + StripFrom(s, i + 1);
  }

  lemma CopiedAll(wide: Wide, s: string, b: string, cells: int)
    requires Copied(wide, s, b, |s|, cells)
    ensures cells == Width(wide, s)
  {
    assert Strip(b) + [] == Strip(b);
  }

  /** The copy loop of `clipCell`. */
  method CopyFitting(wide: Wide, s: string, w: int) returns (b: string)
    requires Plain(s) && w >= 1
    ensures Plain(b)
    ensures Width(wide, s) > w ==> Strip(b) == Strip(s)[..Fitting(wide, Strip(s), w - 1)]
  {
    var cells, i := 0, 0;
    b := "";
    assert [] + Strip(s) == Strip(s);
    while i < |s|
      invariant 0 <= i <= |s| && cells <= w - 1 && Copied(wide, s, b, i, cells)
      decreases |s| - i
    {
      if s[i] == ESC {
        var j := UpToM(s, i);
        CopyEscape(wide, s, b, i, cells);
        b := b + s[i..j];
        i := j;
      } else {
        var rw := RuneCells(wide, s[i]);
        CopyRune(wide, s, b, i, cells);
        if cells + rw > w - 1 {
          Cut(wide, s, b, i, w);
          return;
        }
        b := b + [s[i]];
        cells := cells + rw;
        i := i + 1;
      }
    }
    CopiedAll(wide, s, b, cells);
  }

  /** `clipCell`: at most `w` cells, an ellipsis on overflow, escapes copied and not counted. */
  method ClipCell(wide: Wide, s: string, w: int, reset: string) returns (out: string)
    requires Plain(s) && Narrow(wide) && Invisible(reset)
    ensures w < 1 ==> out == ""
    ensures w >= 1 && Width(wide, s) <= w ==> out == s
    ensures w >= 1 && Width(wide, s) > w ==> Strip(out) == Strip(s)[..Fitting(wide, Strip(s), w - 1)] + [ELLIPSIS]
    ensures Plain(out)
  {
    if w < 1 { return ""; }
    if Width(wide, s) <= w { return s; }
    var b := CopyFitting(wide, s, w);
    OneRune(wide, ELLIPSIS);
    StripConcat([ELLIPSIS], reset);
    StripConcat(b, [ELLIPSIS] + reset);
    out := b + ([ELLIPSIS] + reset);
  }

  lemma Cut(wide: Wide, s: string, b: string, i: nat, w: int)
    requires w >= 1 && Strip(s) == Strip(b) + StripFrom(s, i) && StripFrom(s, i) != []
    requires Count(wide, Strip(b)) <= w - 1 < Count(wide, Strip(b)) + RuneCells(wide, StripFrom(s, i)[0])
    ensures Strip(b) == Strip(s)[..Fitting(wide, Strip(s), w - 1)]
  {
    var n := |Strip(b)|;
    assert Strip(s)[..n] == Strip(b) && Strip(s)[n] == StripFrom(s, i)[0];
    FittingUnique(wide, Strip(s), w - 1, n);
  }

  /** A cut text is one cell short of `w` at most: a rune of two cells may not fit. */
  lemma ClipWidth(wide: Wide, s: string, out: string, w: int)
    requires w >= 1 && Narrow(wide) && Width(wide, s) > w
    requires Strip(out) == Strip(s)[..Fitting(wide, Strip(s), w - 1)] + [ELLIPSIS]
    ensures w - 1 <= Width(wide, out) <= w
  {
    var t := Strip(s);
    var n := Fitting(wide, t, w - 1);
    FittingIsLongest(wide, t, w - 1);
    CountConcat(wide, t[..n], [ELLIPSIS]);
    assert Count(wide, [ELLIPSIS]) == Count(wide, []) + 1;
    assert t[..|t|] == t;
  }

  function Spaces(n: nat): string {
    seq(n, _ => ' ')
  }

  lemma {:induction false} SpacesWidth(wide: Wide, n: nat)
    requires Narrow(wide)
    ensures Plain(Spaces(n)) && Width(wide, Spaces(n)) == n && Strip(Spaces(n)) == Spaces(n)
  {
    if n > 0 {
      SpacesWidth(wide, n - 1);
      OneRune(wide, ' ');
      StripConcat([' '], Spaces(n - 1));
      assert Spaces(n) == [' '] + Spaces(n - 1);
      CountConcat(wide, [' '], Spaces(n - 1));
    }
  }

  /** `fitCell`: exactly `w` cells. A text that fits is kept whole and padded. */
  method FitCell(wide: Wide, s: string, w: int, reset: string) returns (out: string)
    requires Plain(s) && Narrow(wide) && Invisible(reset) && w >= 1
    ensures Plain(out) && Width(wide, out) == w
    ensures Width(wide, s) <= w ==> out == s + Spaces(w - Width(wide, s))
    ensures Width(wide, s) > w ==>
              exists pad :: Strip(out) == Strip(s)[..Fitting(wide, Strip(s), w - 1)] + [ELLIPSIS] + Spaces(pad)
  {
    var cw := Width(wide, s);
    if cw < w {
      SpacesWidth(wide, w - cw);
      WidthConcat(wide, s, Spaces(w - cw));
      return s + Spaces(w - cw);
    }
    if cw == w {
      assert s + Spaces(0) == s;
      return s;
    }
    out := ClipCell(wide, s, w, reset);
    ClipWidth(wide, s, out, w);
    ghost var cut := Strip(out);
    ghost var pad := 0;
    assert cut + Spaces(0) == cut;
    while Width(wide, out) < w
      invariant Plain(out) && Width(wide, out) <= w && Strip(out) == cut + Spaces(pad)
      decreases w - Width(wide, out)
    {
      OneRune(wide, ' ');
      WidthConcat(wide, out, [' ']);
      StripConcat(out, [' ']);
      assert cut + Spaces(pad) + [' '] == cut + Spaces(pad + 1);
      out := out + [' '];
      pad := pad + 1;
    }
  }
}
