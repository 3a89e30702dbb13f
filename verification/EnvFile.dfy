/** The restricted `.env` format: its parser, and the walker that keeps lines of foreign keys. */
module EnvFile {
  import opened Folds
  import opened Lines
  import opened Option
  import opened Text

  const MAX_VALUE_LEN: nat := 200

  /** The line scanner gives up on a longer line. */
  const MAX_LINE: nat := 65535

  /** Index of the first `=`, or the length when there is none. */
  function Equals(line: string): (i: nat)
    ensures i <= |line|
  {
    if line == [] || line[0] == '=' then 0 else 1 + Equals(line[1..])
  }

  function NoReturns(s: string): (r: string)
    ensures |r| <= |s|
  {
    if s == [] then []
    else if s[0] == '\r' then NoReturns(s[1..])
    else [s[0]] + NoReturns(s[1..])
  }

  function Cut(s: string): string {
    if |s| > MAX_VALUE_LEN then s[..MAX_VALUE_LEN] else s
  }

  /** A comment or blank line, as trimmed. */
  predicate Skipped(trimmed: string) {
    trimmed == "" || trimmed[0] == '#'
  }

  /** What a line sets. */
  function Setting(line: string): Option<(string, string)> {
    var eq := Equals(line);
    if Skipped(TrimSpace(line)) || eq == |line| then None
    else Some((TrimSpace(line[..eq]), Cut(NoReturns(line[eq + 1..]))))
  }

  /** The scanner drops one `\r` at the end of a line. */
  function Scanned(piece: string): string {
    if piece != [] && piece[|piece| - 1] == '\r' then piece[..|piece| - 1] else piece
  }

  function Step(m: map<string, string>, piece: string): map<string, string> {
    match Setting(Scanned(piece))
    case None => m
    case Some((key, value)) => m[key := value]
  }

  /** The settings of the lines, the last one of a key winning. */
  function Settings(pieces: seq<string>): map<string, string> {
    Fold(Step, map[], pieces)
  }

  predicate Scannable(pieces: seq<string>) {
    forall i :: 0 <= i < |pieces| ==> |pieces[i]| <= MAX_LINE
  }

  function Parsed(text: string): Option<map<string, string>> {
    var pieces := Split(text, '\n');
    if Scannable(pieces) then Some(Settings(pieces)) else None
  }

  /** One line of the parse loop. */
  method ParseLine(m: map<string, string>, piece: string) returns (out: map<string, string>)
    ensures out == Step(m, piece)
  {
    var line := Scanned(piece);
    var trimmed := TrimSpace(line);
    if trimmed == "" || trimmed[0] == '#' { return m; }
    var eq := Equals(line);
    if eq == |line| { return m; }
    var value := NoReturns(line[eq + 1..]);
    if |value| > MAX_VALUE_LEN { value := value[..MAX_VALUE_LEN]; }
    return m[TrimSpace(line[..eq]) := value];
  }

  /** `Parse`; `None` when a line is too long to scan. */
  method Parse(text: string) returns (out: Option<map<string, string>>)
    ensures out == Parsed(text)
  {
    var pieces := Split(text, '\n');
    var m: map<string, string> := map[];
    var i := 0;
    assert pieces[0..] == pieces;
    while i < |pieces|
      invariant 0 <= i <= |pieces|
      invariant forall j :: 0 <= j < i ==> |pieces[j]| <= MAX_LINE
      invariant Fold(Step, m, pieces[i..]) == Settings(pieces)
    {
      if |pieces[i]| > MAX_LINE { return None; }
      m := ParseLine(m, pieces[i]);
      i := i + 1;
    }
    return Some(m);
  }

  /** The trimmed line, when it sets a key outside the canonical ones. */
  function ForeignLine(piece: string, canonical: set<string>): seq<string> {
    var s := TrimSpace(piece);
    var eq := Equals(s);
    if Skipped(s) || eq == |s| || TrimSpace(s[..eq]) in canonical then [] else [s]
  }

  /** A line is kept, trimmed, exactly when it sets a key outside the canonical ones. */
  lemma ForeignExactly(piece: string, canonical: set<string>)
    ensures var sets := Setting(TrimSpace(piece));
            ForeignLine(piece, canonical)
            == if sets.Some? && sets.value.0 !in canonical then [TrimSpace(piece)] else []
  {
    TrimTwice(piece);
  }

  function Foreign(pieces: seq<string>, canonical: set<string>): seq<string> {
    FlatMap(p => ForeignLine(p, canonical), pieces)
  }

  /** Lines, each ended. */
  function Unlines(lines: seq<string>): string {
    if lines == [] then [] else lines[0] + ['\n'] + Unlines(lines[1..])
  }

  method KeepForeign(piece: string, canonical: set<string>) returns (kept: seq<string>)
    ensures kept == ForeignLine(piece, canonical)
  {
    var s := TrimSpace(piece);
    if s == "" || s[0] == '#' { return []; }
    var eq := Equals(s);
    if eq == |s| { return []; }
    if TrimSpace(s[..eq]) in canonical { return []; }
    return [s];
  }

  lemma {:induction false} UnlinesAppend(a: seq<string>, b: seq<string>)
    ensures Unlines(a + b) == Unlines(a) + Unlines(b)
  {
    if a == [] {
      assert a + b == b;
    } else {
      UnlinesAppend(a[1..], b);
      assert (a + b)[1..] == a[1..] + b;
    }
  }

  /** `extractForeignKeysSet` */
  method ExtractForeignKeysSet(data: string, canonical: set<string>) returns (block: string)
    ensures block == Unlines(Foreign(Split(data, '\n'), canonical))
  {
    var pieces := Split(data, '\n');
    ghost var f := (p: string) => ForeignLine(p, canonical);
    block := "";
    for i := 0 to |pieces|
      invariant block == Unlines(FlatMap(f, pieces[..i]))
    {
      var kept := KeepForeign(pieces[i], canonical);
      FlatMapSnoc(f, pieces, i);
      UnlinesAppend(FlatMap(f, pieces[..i]), kept);
      if |kept| > 0 {
        block := block + kept[0] + ['\n'];
      }
      UnlinesOne(kept);
    }
    assert pieces[..|pieces|] == pieces;
  }

  lemma UnlinesOne(kept: seq<string>)
    requires |kept| <= 1
    ensures Unlines(kept) == if kept == [] then [] else kept[0] + ['\n']
  {
    if kept != [] {
      assert kept[1..] == [];
    }
  }

  // ---------------------------------------------------------------------------------------
  // Facts about single lines
  // ---------------------------------------------------------------------------------------

  /** What a parsed value can be. */
  predicate Clean(value: string) {
    '\n' !in value && '\r' !in value && |value| <= MAX_VALUE_LEN
  }

  predicate ValidName(name: string) {
    name != "" && name[0] != '#' && TrimSpace(name) == name
    && '=' !in name && '\n' !in name && '\r' !in name
  }

  lemma {:induction false} EqualsAt(name: string, value: string)
    requires '=' !in name
    ensures Equals(name + ['='] + value) == |name|
  {
    var line := name + ['='] + value;
    if name != [] {
      EqualsAt(name[1..], value);
      assert line[1..] == name[1..] + ['='] + value;
    }
  }

  lemma {:induction false} NoReturnsKeeps(s: string, c: char)
    ensures c in NoReturns(s) <==> c in s && c != '\r'
    ensures '\r' !in s ==> NoReturns(s) == s
  {
    if s != [] {
      NoReturnsKeeps(s[1..], c);
      assert s == [s[0]] + s[1..];
    }
  }

  lemma TrimKeepsHead(s: string)
    requires s != [] && !IsSpace(s[0])
    ensures TrimSpace(s) != [] && TrimSpace(s)[0] == s[0]
  {
    TrimRightKeepsHead(s);
  }

  lemma {:induction false} TrimRightKeepsHead(s: string)
    requires s != [] && !IsSpace(s[0])
    ensures TrimRight(s) != [] && TrimRight(s)[0] == s[0]
  {
    if IsSpace(s[|s| - 1]) {
      TrimRightKeepsHead(s[..|s| - 1]);
    }
  }

  lemma TrimmedHead(s: string)
    requires s != "" && TrimSpace(s) == s
    ensures !IsSpace(s[0])
  {
  }

  /** A rendered key line reads back as it was written, when the value is clean. */
  lemma SettingOfLine(name: string, value: string)
    requires ValidName(name) && Clean(value)
    ensures var line := name + ['='] + value;
            Scanned(line) == line && Setting(line) == Some((name, value)) && '\n' !in line
  {
    var line := name + ['='] + value;
    EqualsAt(name, value);
    assert line[..|name|] == name && line[|name| + 1..] == value;
    NoReturnsKeeps(value, 'x');
    TrimmedHead(name);
    TrimKeepsHead(line);
  }

  lemma {:induction false} RightTrimKeepsLeft(s: string)
    requires s == [] || !IsSpace(s[0])
    ensures TrimLeft(TrimRight(s)) == TrimRight(s)
  {
    if s != [] {
      TrimRightKeepsHead(s);
    }
  }

  lemma TrimTwice(s: string)
    ensures TrimSpace(TrimSpace(s)) == TrimSpace(s)
  {
    RightTrimKeepsLeft(TrimLeft(s));
  }

  /** A kept foreign line is kept again, as it is. */
  lemma ForeignAgain(piece: string, canonical: set<string>)
    requires ForeignLine(piece, canonical) != []
    ensures ForeignLine(piece, canonical) == [TrimSpace(piece)]
    ensures ForeignLine(TrimSpace(piece), canonical) == [TrimSpace(piece)]
  {
    TrimTwice(piece);
  }

  /** It sets its own, foreign key. */
  lemma ForeignSets(piece: string, canonical: set<string>)
    requires ForeignLine(piece, canonical) != []
    ensures var s := TrimSpace(piece);
            Scanned(s) == s && Setting(s).Some? && Setting(s).value.0 !in canonical
  {
    TrimTwice(piece);
    var s := TrimSpace(piece);
    assert s != "" && !IsSpace(s[|s| - 1]);
  }

  lemma {:induction false} SplitUnlines(lines: seq<string>)
    requires forall l :: l in lines ==> '\n' !in l
    ensures Split(Unlines(lines), '\n') == lines + [[]]
  {
    if lines != [] {
      SplitUnlines(lines[1..]);
      SplitLine(lines[0], Unlines(lines[1..]), '\n');
      assert lines == [lines[0]] + lines[1..];
    }
  }

  /** Whatever the text, what is parsed is clean: no value of a later run can be dirty but a given one. */
  lemma SettingIsClean(piece: string)
    requires '\n' !in piece
    ensures Setting(Scanned(piece)).Some? ==> Clean(Setting(Scanned(piece)).value.1)
  {
    var line := Scanned(piece);
    var eq := Equals(line);
    if eq < |line| {
      var raw := line[eq + 1..];
      assert '\n' !in raw;
      NoReturnsKeeps(raw, '\n');
      NoReturnsKeeps(raw, '\r');
    }
  }

  predicate AllClean(m: map<string, string>) {
    forall k :: k in m ==> Clean(m[k])
  }

  lemma {:induction false} ParsedIsClean(m: map<string, string>, pieces: seq<string>)
    requires AllClean(m)
    requires forall p :: p in pieces ==> '\n' !in p
    ensures AllClean(Fold(Step, m, pieces))
    decreases |pieces|
  {
    if pieces != [] {
      SettingIsClean(pieces[0]);
      assert AllClean(Step(m, pieces[0]));
      ParsedIsClean(Step(m, pieces[0]), pieces[1..]);
    }
  }
}
