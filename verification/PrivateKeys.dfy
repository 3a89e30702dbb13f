/** Redacting private keys (RFC 7468 section 2) from a text that may show only a part of one. */
module PrivateKeys {
  import opened Lines

  const MARK := "[redacted:private-key]"

  const BEGIN := "-----BEGIN "

  const END := "-----END "

  const KEY := "PRIVATE KEY-----"

  /** What a line can be: it holds a BEGIN or an END delimiter, it can be part of a key body, it is a body
      line of full width. `block` replaces complete keys, delimiters included, in the whole text. */
  datatype Patterns = Patterns(begin: string -> bool, end: string -> bool, body: string -> bool,
                               full: string -> bool, block: string -> string)

  /** What the redaction relies on: its mark is none of these, and without a BEGIN there is no block. */
  ghost predicate Sound(p: Patterns) {
    && !p.begin(MARK) && !p.end(MARK) && !p.body(MARK) && !p.full(MARK)
    && forall text :: (forall l :: l in Split(text, '\n') ==> !p.begin(l)) ==> p.block(text) == text
  }

  // ---------------------------------------------------------------------------------------
  // The patterns of a PEM file
  // ---------------------------------------------------------------------------------------

  predicate Base64(c: char) {
    'A' <= c <= 'Z' || 'a' <= c <= 'z' || '0' <= c <= '9' || c == '+' || c == '/'
  }

  predicate WhiteSpace(c: char) {
    c == ' ' || c == '\t' || c == '\n' || c == '\r' || c as int == 12
  }

  predicate Label(c: char) {
    'A' <= c <= 'Z' || c == ' '
  }

  predicate All(each: char -> bool, s: string) {
    forall i :: 0 <= i < |s| ==> each(s[i])
  }

  predicate Padding(s: string) {
    |s| <= 2 && forall i :: 0 <= i < |s| ==> s[i] == '='
  }

  /** Cut into white space, base64, padding, white space at `i`, `j` and `m`. */
  predicate BodyParts(l: string, least: nat, i: nat, j: nat, m: nat) {
    && i <= j <= m <= |l| && least <= j - i <= 76
    && All(WhiteSpace, l[..i]) && All(Base64, l[i..j]) && Padding(l[j..m]) && All(WhiteSpace, l[m..])
  }

  predicate BodyLine(l: string, least: nat) {
    exists i, j, m | 0 <= i <= j <= m <= |l| :: BodyParts(l, least, i, j, m)
  }

  /** Five dashes, the word, a label, and the closing words, from `i` on with the label up to `j`. */
  predicate DelimiterAt(l: string, word: string, i: nat, j: nat) {
    && i + |word| <= j <= |l| && l[i..i + |word|] == word && All(Label, l[i + |word|..j])
    && KEY <= l[j..]
  }

  predicate Delimiter(l: string, word: string) {
    exists i, j | 0 <= i <= j <= |l| :: DelimiterAt(l, word, i, j)
  }

  function Pem(block: string -> string): Patterns {
    Patterns(l => Delimiter(l, BEGIN), l => Delimiter(l, END), l => BodyLine(l, 1), l => BodyLine(l, 60), block)
  }

  lemma DelimiterHasDashes(l: string, word: string, i: nat, j: nat)
    requires DelimiterAt(l, word, i, j) && |word| >= 2 && word[0] == '-' && word[1] == '-'
    ensures i + 1 < |l| && l[i] == '-' && l[i + 1] == '-'
  {
    assert l[i..i + |word|][0] == l[i] && l[i..i + |word|][1] == l[i + 1];
  }

  lemma MarkIsNoDelimiter(word: string, i: nat, j: nat)
    requires |word| >= 2 && word[0] == '-' && word[1] == '-'
    ensures !DelimiterAt(MARK, word, i, j)
  {
    if DelimiterAt(MARK, word, i, j) {
      DelimiterHasDashes(MARK, word, i, j);
      assert false;
    }
  }

  lemma BodyHead(l: string, least: nat, i: nat, j: nat, m: nat)
    requires BodyParts(l, least, i, j, m) && least >= 1
    ensures l != [] && (WhiteSpace(l[0]) || Base64(l[0]))
  {
    assert i > 0 ==> l[..i][0] == l[0];
    assert i == 0 ==> l[i..j][0] == l[0];
  }

  lemma MarkIsNoBody(least: nat, i: nat, j: nat, m: nat)
    requires least >= 1
    ensures !BodyParts(MARK, least, i, j, m)
  {
    if BodyParts(MARK, least, i, j, m) {
      BodyHead(MARK, least, i, j, m);
      assert false;
    }
  }

  /** The patterns of the program are sound, given what its block pattern does to a text without a BEGIN. */
  lemma PemIsSound(block: string -> string)
    requires forall text :: (forall l :: l in Split(text, '\n') ==> !Delimiter(l, BEGIN)) ==> block(text) == text
    ensures Sound(Pem(block))
  {
    var p := Pem(block);
    forall i: nat, j: nat
      ensures !DelimiterAt(MARK, BEGIN, i, j) && !DelimiterAt(MARK, END, i, j)
    {
      MarkIsNoDelimiter(BEGIN, i, j);
      MarkIsNoDelimiter(END, i, j);
    }
    forall i: nat, j: nat, m: nat
      ensures !BodyParts(MARK, 1, i, j, m) && !BodyParts(MARK, 60, i, j, m)
    {
      MarkIsNoBody(1, i, j, m);
      MarkIsNoBody(60, i, j, m);
    }
    forall text | forall l :: l in Split(text, '\n') ==> !p.begin(l)
      ensures p.block(text) == text
    {
      assert forall l :: l in Split(text, '\n') ==> !p.begin(l) && !Delimiter(l, BEGIN);
    }
  }

  // ---------------------------------------------------------------------------------------
  // What is dropped
  // ---------------------------------------------------------------------------------------

  /** A line that starts a backward run; one with both delimiters only starts forward. */
  predicate Ends(p: Patterns, l: string) {
    p.end(l) && !p.begin(l)
  }

  predicate AllBody(p: Patterns, lines: seq<string>, a: nat, b: nat) {
    forall k :: a <= k < b && k < |lines| ==> p.body(lines[k])
  }

  ghost predicate AfterBegin(p: Patterns, lines: seq<string>, i: nat) {
    exists b: nat :: b < i < |lines| && p.begin(lines[b]) && AllBody(p, lines, b + 1, i + 1)
  }

  ghost predicate BeforeEnd(p: Patterns, lines: seq<string>, i: nat) {
    exists e: nat :: i < e < |lines| && Ends(p, lines[e]) && AllBody(p, lines, i, e)
  }

  predicate FullAt(p: Patterns, lines: seq<string>, i: int) {
    0 <= i < |lines| && p.full(lines[i])
  }

  /** A full-width line next to another. */
  predicate InFullRun(p: Patterns, lines: seq<string>, i: nat) {
    FullAt(p, lines, i) && (FullAt(p, lines, i - 1) || FullAt(p, lines, i + 1))
  }

  /** The lines that go: delimiters, the body lines after a BEGIN and before an END, and full-width lines
      that are not alone. */
  ghost predicate Dropped(p: Patterns, lines: seq<string>, i: nat)
    requires i < |lines|
  {
    || p.begin(lines[i]) || p.end(lines[i])
    || AfterBegin(p, lines, i) || BeforeEnd(p, lines, i) || InFullRun(p, lines, i)
  }

  /** The first `n` lines with every dropped run collapsed into one mark. */
  ghost function Collapse(p: Patterns, lines: seq<string>, n: nat): seq<string>
    requires n <= |lines|
  {
    if n == 0 then []
    else
      Collapse(p, lines, n - 1)
      + if !Dropped(p, lines, n - 1) then [lines[n - 1]]
        else if n == 1 || !Dropped(p, lines, n - 2) then [MARK]
        else []
  }

  // ---------------------------------------------------------------------------------------
  // The loops
  // ---------------------------------------------------------------------------------------

  /** What the delimiter loop has marked after the first `n` lines. */
  ghost predicate MarkedBy(p: Patterns, lines: seq<string>, n: nat, i: nat)
    requires i < |lines|
  {
    || (i < n && (p.begin(lines[i]) || p.end(lines[i])))
    || (exists b: nat :: b < i && b < n && b < |lines| && p.begin(lines[b]) && AllBody(p, lines, b + 1, i + 1))
    || exists e: nat :: i < e && e < n && e < |lines| && Ends(p, lines[e]) && AllBody(p, lines, i, e)
  }

  method DropAfter(p: Patterns, lines: seq<string>, drop: array<bool>, i: nat)
    requires drop.Length == |lines| && i < |lines|
    modifies drop
    ensures forall k: nat :: k < |lines| ==>
              (drop[k] <==> old(drop[k]) || k == i || (i < k && AllBody(p, lines, i + 1, k + 1)))
  {
    drop[i] := true;
    var j := i + 1;
    while j < |lines| && p.body(lines[j])
      invariant i + 1 <= j <= |lines| && AllBody(p, lines, i + 1, j)
      invariant forall k: nat :: k < |lines| ==> (drop[k] <==> old(drop[k]) || i <= k < j)
    {
      drop[j] := true;
      j := j + 1;
    }
  }

  method DropBefore(p: Patterns, lines: seq<string>, drop: array<bool>, i: nat)
    requires drop.Length == |lines| && i < |lines|
    modifies drop
    ensures forall k: nat :: k < |lines| ==> (drop[k] <==> old(drop[k]) || k == i || (k < i && AllBody(p, lines, k, i)))
  {
    drop[i] := true;
    var j := i - 1;
    while j >= 0 && p.body(lines[j])
      invariant -1 <= j < i && AllBody(p, lines, j + 1, i)
      invariant forall k: nat :: k < |lines| ==> (drop[k] <==> old(drop[k]) || j < k <= i)
    {
      drop[j] := true;
      j := j - 1;
    }
  }

  method MarkDelimited(p: Patterns, lines: seq<string>, drop: array<bool>)
    requires drop.Length == |lines| && forall k :: 0 <= k < |lines| ==> !drop[k]
    modifies drop
    ensures forall k: nat :: k < |lines| ==> (drop[k] <==> MarkedBy(p, lines, |lines|, k))
  {
    for i := 0 to |lines|
      invariant forall k: nat :: k < |lines| ==> (drop[k] <==> MarkedBy(p, lines, i, k))
    {
      if p.begin(lines[i]) {
        DropAfter(p, lines, drop, i);
      } else if p.end(lines[i]) {
        DropBefore(p, lines, drop, i);
      }
    }
  }

  method MarkFullRuns(p: Patterns, lines: seq<string>, drop: array<bool>)
    requires drop.Length == |lines|
    modifies drop
    ensures forall k: nat :: k < |lines| ==> (drop[k] <==> old(drop[k]) || InFullRun(p, lines, k))
  {
    var i := 0;
    while i < |lines|
      invariant 0 <= i <= |lines| && (i > 0 ==> !FullAt(p, lines, i - 1) || !FullAt(p, lines, i))
      invariant forall k: nat :: k < |lines| ==> (drop[k] <==> old(drop[k]) || (k < i && InFullRun(p, lines, k)))
    {
      var j := i;
      while j < |lines| && p.full(lines[j])
        invariant i <= j <= |lines| && forall k :: i <= k < j ==> FullAt(p, lines, k)
      {
        j := j + 1;
      }
      if j - i >= 2 {
        var k := i;
        while k < j
          invariant i <= k <= j
          invariant forall m: nat :: m < |lines| ==>
                      (drop[m] <==> old(drop[m]) || (m < i && InFullRun(p, lines, m)) || i <= m < k)
        {
          drop[k] := true;
          k := k + 1;
        }
      }
      i := if j > i + 1 then j else i + 1;
    }
  }

  /** `privateKeys` */
  method Redact(p: Patterns, s: string) returns (out: string)
    ensures out == Redacted(p, s)
  {
    var lines := Split(p.block(s), '\n');
    var drop := new bool[|lines|](_ => false);
    MarkDelimited(p, lines, drop);
    MarkFullRuns(p, lines, drop);
    assert forall k: nat :: k < |lines| ==> (drop[k] <==> Dropped(p, lines, k));
    var kept: seq<string> := [];
    for i := 0 to |lines|
      invariant kept == Collapse(p, lines, i)
    {
      if !drop[i] {
        kept := kept + [lines[i]];
      } else if i == 0 || !drop[i - 1] {
        kept := kept + [MARK];
      }
    }
    CollapseNotEmpty(p, lines, |lines|);
    out := Join(kept, '\n');
  }

  ghost function Redacted(p: Patterns, s: string): string {
    var lines := Split(p.block(s), '\n');
    CollapseNotEmpty(p, lines, |lines|);
    Join(Collapse(p, lines, |lines|), '\n')
  }

  lemma {:induction false} CollapseNotEmpty(p: Patterns, lines: seq<string>, n: nat)
    requires 0 < n <= |lines|
    ensures Collapse(p, lines, n) != []
  {
    if n > 1 {
      CollapseNotEmpty(p, lines, n - 1);
    }
  }

  // ---------------------------------------------------------------------------------------
  // What is left
  // ---------------------------------------------------------------------------------------

  /** Every line left is the mark or a line that was not dropped. */
  lemma {:induction false} LeftIsKept(p: Patterns, lines: seq<string>, n: nat, l: string)
    requires n <= |lines| && l in Collapse(p, lines, n)
    ensures l == MARK || exists i: nat :: i < n && lines[i] == l && !Dropped(p, lines, i)
  {
    if l in Collapse(p, lines, n - 1) {
      LeftIsKept(p, lines, n - 1, l);
    }
  }

  /** The last line of a prefix: the mark after a dropped line, else the line itself. */
  lemma {:induction false} LastOf(p: Patterns, lines: seq<string>, n: nat)
    requires 0 < n <= |lines|
    ensures var c := Collapse(p, lines, n);
            c != [] && c[|c| - 1] == if Dropped(p, lines, n - 1) then MARK else lines[n - 1]
  {
    if n > 1 {
      LastOf(p, lines, n - 1);
    }
  }

  /** No two full-width lines follow one another. */
  ghost predicate NoFullPair(p: Patterns, out: seq<string>) {
    forall i :: 0 <= i < |out| - 1 ==> !(p.full(out[i]) && p.full(out[i + 1]))
  }

  lemma {:induction false} NoPairLeft(p: Patterns, lines: seq<string>, n: nat)
    requires Sound(p) && n <= |lines|
    ensures NoFullPair(p, Collapse(p, lines, n))
  {
    if n > 0 {
      NoPairLeft(p, lines, n - 1);
      if n > 1 && !Dropped(p, lines, n - 1) {
        LastOf(p, lines, n - 1);
        assert !InFullRun(p, lines, n - 1);
      }
    }
  }

  /** After one pass no delimiter is left, and no run of full-width lines. */
  lemma NothingLeft(p: Patterns, lines: seq<string>)
    requires Sound(p)
    ensures var out := Collapse(p, lines, |lines|);
            && (forall l :: l in out ==> !p.begin(l) && !p.end(l))
            && NoFullPair(p, out)
  {
    var out := Collapse(p, lines, |lines|);
    forall l | l in out
      ensures !p.begin(l) && !p.end(l)
    {
      LeftIsKept(p, lines, |lines|, l);
    }
    NoPairLeft(p, lines, |lines|);
  }

  lemma {:induction false} Prefix(p: Patterns, lines: seq<string>, m: nat, n: nat)
    requires m <= n <= |lines|
    ensures Collapse(p, lines, m) <= Collapse(p, lines, n)
  {
    if m < n {
      Prefix(p, lines, m, n - 1);
    }
  }

  ghost predicate DroppedRun(p: Patterns, lines: seq<string>, a: nat, b: nat) {
    && a < b <= |lines| && (forall k: nat :: a <= k < b ==> Dropped(p, lines, k))
    && (a > 0 ==> !Dropped(p, lines, a - 1)) && (b < |lines| ==> !Dropped(p, lines, b))
  }

  lemma {:induction false} RunGivesOneMark(p: Patterns, lines: seq<string>, a: nat, m: nat)
    requires a < m <= |lines| && forall k: nat :: a <= k < m ==> Dropped(p, lines, k)
    requires a > 0 ==> !Dropped(p, lines, a - 1)
    ensures Collapse(p, lines, m) == Collapse(p, lines, a) + [MARK]
  {
    if a + 1 < m {
      RunGivesOneMark(p, lines, a, m - 1);
      assert Dropped(p, lines, m - 2);
    }
  }

  /** Where everything ends up: a kept line stands right after what became of the lines before it, so the
      kept lines keep their order; a maximal dropped run becomes exactly one mark there. */
  lemma WhereLinesGo(p: Patterns, lines: seq<string>, a: nat, b: nat)
    requires a < |lines|
    ensures var out := Collapse(p, lines, |lines|);
            var at := |Collapse(p, lines, a)|;
            && (!Dropped(p, lines, a) ==> at < |out| && out[at] == lines[a] && |Collapse(p, lines, a + 1)| == at + 1)
            && (DroppedRun(p, lines, a, b) ==> at < |out| && out[at] == MARK && |Collapse(p, lines, b)| == at + 1)
  {
    Prefix(p, lines, a + 1, |lines|);
    if DroppedRun(p, lines, a, b) {
      RunGivesOneMark(p, lines, a, b);
      Prefix(p, lines, b, |lines|);
    }
  }

  // ---------------------------------------------------------------------------------------
  // A second pass changes nothing
  // ---------------------------------------------------------------------------------------

  lemma {:induction false} NothingToDrop(p: Patterns, lines: seq<string>, n: nat)
    requires n <= |lines|
    requires (forall l :: l in lines ==> !p.begin(l) && !p.end(l)) && NoFullPair(p, lines)
    ensures Collapse(p, lines, n) == lines[..n]
  {
    if n > 0 {
      NothingToDrop(p, lines, n - 1);
      assert forall k :: 0 <= k < |lines| ==> lines[k] in lines;
      assert !Dropped(p, lines, n - 1);
    }
  }

  lemma {:induction false} SplitJoin(parts: seq<string>)
    requires parts != [] && forall l :: l in parts ==> '\n' !in l
    ensures Split(Join(parts, '\n'), '\n') == parts
  {
    assert '\n' !in parts[0];
    if |parts| == 1 {
      SplitNoSep(parts[0], '\n');
    } else {
      SplitJoin(parts[1..]);
      SplitLine(parts[0], Join(parts[1..], '\n'), '\n');
    }
  }

  lemma LeftIsUnbroken(p: Patterns, lines: seq<string>)
    requires forall l :: l in lines ==> '\n' !in l
    ensures forall l :: l in Collapse(p, lines, |lines|) ==> '\n' !in l
  {
    forall l | l in Collapse(p, lines, |lines|)
      ensures '\n' !in l
    {
      LeftIsKept(p, lines, |lines|, l);
      assert '\n' !in MARK;
    }
  }

  /** Redacting what is redacted changes nothing. */
  lemma Idempotent(p: Patterns, s: string)
    requires Sound(p)
    ensures Redacted(p, Redacted(p, s)) == Redacted(p, s)
  {
    var lines := Split(p.block(s), '\n');
    var out := Collapse(p, lines, |lines|);
    CollapseNotEmpty(p, lines, |lines|);
    SplitPieces(p.block(s), '\n');
    LeftIsUnbroken(p, lines);
    SplitJoin(out);
    NothingLeft(p, lines);
    NothingToDrop(p, out, |out|);
    assert out[..|out|] == out;
  }

  // ---------------------------------------------------------------------------------------
  // The body lines before an END
  // ---------------------------------------------------------------------------------------

  /** No body line is a delimiter, and full-width lines are body lines. */
  ghost predicate Separate(p: Patterns) {
    forall l :: (p.body(l) ==> !p.begin(l) && !p.end(l)) && (p.full(l) ==> p.body(l))
  }

  /** The maximal run of body lines right before line `e`. */
  predicate BodyRun(p: Patterns, lines: seq<string>, a: nat, e: nat) {
    a <= e < |lines| && AllBody(p, lines, a, e) && (a > 0 ==> !p.body(lines[a - 1]))
  }

  /** The promise at an END line: the body lines before it go. */
  ghost predicate TakesBodyBefore(p: Patterns, lines: seq<string>, e: nat)
    requires e < |lines|
  {
    forall i: nat :: i < e && AllBody(p, lines, i, e) ==> Dropped(p, lines, i)
  }

  /** What a line of such a run can be dropped for. */
  lemma DroppedInRun(p: Patterns, lines: seq<string>, a: nat, e: nat, i: nat)
    requires Separate(p) && BodyRun(p, lines, a, e) && p.end(lines[e]) && a <= i < e
    ensures Dropped(p, lines, i)
            <==> !p.begin(lines[e]) || (a > 0 && p.begin(lines[a - 1])) || InFullRun(p, lines, i)
  {
    assert p.body(lines[i]);
    if a > 0 && p.begin(lines[a - 1]) {
      assert AllBody(p, lines, a - 1 + 1, i + 1);
    }
    if AfterBegin(p, lines, i) {
      var b: nat :| b < i && p.begin(lines[b]) && AllBody(p, lines, b + 1, i + 1);
      assert b == a - 1;
    }
    if BeforeEnd(p, lines, i) {
      var f: nat :| i < f < |lines| && Ends(p, lines[f]) && AllBody(p, lines, i, f);
      assert f == e;
    }
  }

  lemma FullRunExactly(p: Patterns, lines: seq<string>, a: nat, e: nat)
    requires a < e <= |lines| && !FullAt(p, lines, a - 1) && !FullAt(p, lines, e)
    ensures (forall k: nat :: a <= k < e ==> InFullRun(p, lines, k))
            <==> e - a >= 2 && forall k :: a <= k < e ==> FullAt(p, lines, k)
  {
    if forall k: nat :: a <= k < e ==> InFullRun(p, lines, k) {
      forall k | a <= k < e
        ensures FullAt(p, lines, k)
      {
        assert InFullRun(p, lines, k);
      }
      assert InFullRun(p, lines, a);
    } else if e - a >= 2 && forall k :: a <= k < e ==> FullAt(p, lines, k) {
      forall k: nat | a <= k < e
        ensures InFullRun(p, lines, k)
      {
        assert FullAt(p, lines, if k == a then k + 1 else k - 1);
      }
    }
  }

  /** When the promise holds at an END line: it holds no BEGIN besides, or no body line is before it, or the
      body lines before it go for another reason, a BEGIN right above them or full width. A line with both
      delimiters is judged by its BEGIN alone. */
  lemma BodyBeforeEndExactly(p: Patterns, lines: seq<string>, a: nat, e: nat)
    requires Separate(p) && BodyRun(p, lines, a, e) && p.end(lines[e])
    ensures TakesBodyBefore(p, lines, e)
            <==> || !p.begin(lines[e]) || a == e || (a > 0 && p.begin(lines[a - 1]))
                 || (e - a >= 2 && forall k :: a <= k < e ==> FullAt(p, lines, k))
  {
    forall i: nat | i < e && AllBody(p, lines, i, e)
      ensures a <= i
    {
      assert a > 0 ==> !p.body(lines[a - 1]);
    }
    forall i: nat | a <= i < e
      ensures AllBody(p, lines, i, e)
      ensures Dropped(p, lines, i)
              <==> !p.begin(lines[e]) || (a > 0 && p.begin(lines[a - 1])) || InFullRun(p, lines, i)
    {
      DroppedInRun(p, lines, a, e, i);
    }
    if a < e {
      FullRunExactly(p, lines, a, e);
    }
  }

  lemma NoDash(l: string, least: nat, i: nat, j: nat, m: nat, k: nat)
    requires BodyParts(l, least, i, j, m) && k < |l|
    ensures l[k] != '-'
  {
    assert k < i ==> l[..i][k] == l[k];
    assert i <= k < j ==> l[i..j][k - i] == l[k];
    assert j <= k < m ==> l[j..m][k - j] == l[k];
    assert m <= k ==> l[m..][k - m] == l[k];
  }

  /** The program's patterns are separate. */
  lemma PemIsSeparate(block: string -> string)
    ensures Separate(Pem(block))
  {
    forall l: string
      ensures BodyLine(l, 1) ==> !Delimiter(l, BEGIN) && !Delimiter(l, END)
      ensures BodyLine(l, 60) ==> BodyLine(l, 1)
    {
      if BodyLine(l, 60) {
        var i: nat, j: nat, m: nat :| i <= j <= m <= |l| && BodyParts(l, 60, i, j, m);
        assert BodyParts(l, 1, i, j, m);
      }
      if BodyLine(l, 1) {
        var i: nat, j: nat, m: nat :| i <= j <= m <= |l| && BodyParts(l, 1, i, j, m);
        forall word, a: nat, b: nat | (word == BEGIN || word == END) && DelimiterAt(l, word, a, b)
          ensures false
        {
          DelimiterHasDashes(l, word, a, b);
          NoDash(l, 1, i, j, m, a);
        }
      }
    }
  }

  lemma DelimiterIn(pre: string, word: string, post: string)
    ensures Delimiter(pre + word + KEY + post, word)
  {
    var l := pre + word + KEY + post;
    var i, j := |pre|, |pre| + |word|;
    assert l[i..i + |word|] == word;
    assert l[j..] == KEY + post;
    assert DelimiterAt(l, word, i, j);
  }

  /** A line with both delimiters has both. */
  lemma BothDelimiters()
    ensures var both := END + KEY + BEGIN + KEY; Delimiter(both, BEGIN) && Delimiter(both, END) && '\n' !in both
    ensures var end := END + KEY; !Delimiter(end, BEGIN) && Delimiter(end, END) && '\n' !in end
  {
    DelimitersOf(END, BEGIN);
    Letters();
    NotInSum('\n', END, BEGIN);
    NotInSum('B', END, []);
    NoBegin(END + KEY);
  }

  lemma Letters()
    ensures '\n' !in END && '\n' !in BEGIN && '\n' !in KEY && 'B' !in END && 'B' !in KEY
  {
  }

  lemma NotInSum(c: char, end: string, begin: string)
    requires c !in end && c !in begin && c !in KEY
    ensures c !in end + KEY && c !in end + KEY + begin + KEY
  {
  }

  lemma DelimitersOf(end: string, begin: string)
    ensures Delimiter(end + KEY + begin + KEY, end) && Delimiter(end + KEY + begin + KEY, begin)
    ensures Delimiter(end + KEY, end)
  {
    DelimiterIn([], end, begin + KEY);
    DelimiterIn(end + KEY, begin, []);
    DelimiterIn([], end, []);
    Regroup(end, KEY, begin);
  }

  lemma Regroup(e: string, k: string, b: string)
    ensures e + k + b + k == [] + e + k + (b + k) == e + k + b + k + [] && e + k == [] + e + k + []
  {
  }

  /** Such a text: any body line, and then a line with the END of one key and the BEGIN of the next. The body
      line is still there afterwards, although the END alone would have taken it along. No complete key is
      in either text. */
  lemma KeyLineStays(block: string -> string, body: string, both: string, end: string)
    requires BodyLine(body, 1) && '\n' !in body && both == END + KEY + BEGIN + KEY && end == END + KEY
    requires block(body + ['\n'] + both) == body + ['\n'] + both && block(body + ['\n'] + end) == body + ['\n'] + end
    ensures Redacted(Pem(block), body + ['\n'] + both) == body + ['\n'] + MARK
    ensures Redacted(Pem(block), body + ['\n'] + end) == MARK
  {
    BothDelimiters();
    PemIsSeparate(block);
    TwoLines(Pem(block), body, both);
    TwoLines(Pem(block), body, end);
  }

  /** One such text, written out. */
  lemma KeyLineExample(block: string -> string, s: string, t: string)
    requires s == "QUJD" + ['\n'] + (END + KEY + BEGIN + KEY) && block(s) == s
    requires t == "QUJD" + ['\n'] + (END + KEY) && block(t) == t
    ensures Redacted(Pem(block), s) == "QUJD" + ['\n'] + MARK
    ensures Redacted(Pem(block), t) == MARK
  {
    assert BodyParts("QUJD", 1, 0, 4, 4);
    KeyLineStays(block, "QUJD", END + KEY + BEGIN + KEY, END + KEY);
  }

  lemma NoBegin(l: string)
    requires 'B' !in l
    ensures !Delimiter(l, BEGIN)
  {
    forall i: nat, j: nat | DelimiterAt(l, BEGIN, i, j)
      ensures false
    {
      BeginHasB(l, i, j);
    }
  }

  lemma BeginHasB(l: string, i: nat, j: nat)
    requires DelimiterAt(l, BEGIN, i, j)
    ensures 'B' in l
  {
    assert l[i..i + |BEGIN|][5] == l[i + 5] == 'B';
  }

  lemma TwoLines(p: Patterns, body: string, last: string)
    requires Separate(p) && p.body(body) && p.end(last) && '\n' !in body && '\n' !in last
    requires p.block(body + ['\n'] + last) == body + ['\n'] + last
    ensures Redacted(p, body + ['\n'] + last) == if p.begin(last) then body + ['\n'] + MARK else MARK
  {
    var lines := [body, last];
    SplitLine(body, last, '\n');
    SplitNoSep(last, '\n');
    assert [body] + [last] == lines;
    TwoLinesCollapse(p, body, last);
    TwoLinesJoin(body);
  }

  lemma TwoLinesCollapse(p: Patterns, body: string, last: string)
    requires Separate(p) && p.body(body) && p.end(last)
    ensures Collapse(p, [body, last], 2) == if p.begin(last) then [body, MARK] else [MARK]
  {
    var lines := [body, last];
    DroppedInRun(p, lines, 0, 1, 0);
    assert Collapse(p, lines, 1) == if p.begin(last) then [body] else [MARK];
  }

  lemma TwoLinesJoin(body: string)
    ensures Join([body, MARK], '\n') == body + ['\n'] + MARK && Join([MARK], '\n') == MARK
  {
    assert [body, MARK][1..] == [MARK];
  }
}
