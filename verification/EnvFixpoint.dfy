/** Regenerating `.env` reaches a fixpoint: what was written reads back, foreign lines stay, and the next
    run with the same flags has nothing to do. */
module EnvFixpoint {
  import opened EnvFile
  import opened EnvRegenerate
  import opened Folds
  import opened Lines
  import opened Option
  import opened Text

  function AllKeys(f: Form): set<string> {
    Canonical(f) + {f.versionKey}
  }

  /** Lines as the walker keeps them. */
  ghost predicate KeptLines(foreign: seq<string>, canonical: set<string>) {
    forall i :: 0 <= i < |foreign| ==>
      ForeignLine(foreign[i], canonical) == [foreign[i]] && '\n' !in foreign[i] && |foreign[i]| <= MAX_LINE
  }

  lemma HeaderIsWorthNothing(m: map<string, string>, header: seq<string>, canonical: set<string>)
    requires forall i :: 0 <= i < |header| ==> Comment(header[i])
    ensures Worth(header, m, m, [], canonical)
  {
    forall i | 0 <= i < |header|
      ensures Inert(header[i], canonical)
    {
      CommentIsInert(header[i], canonical);
    }
    InertIsWorthNothing(m, header, canonical);
  }

  lemma VersionIsWorth(f: Form, m: map<string, string>)
    requires ValidForm(f)
    ensures Worth(VersionLines(f), m, m[f.versionKey := f.version], [], AllKeys(f))
  {
    KeyBlock(m, Key(f.versionKey, f.managed, "", false), f.version, AllKeys(f));
  }

  lemma MarkIsWorthNothing(m: map<string, string>, mark: string, canonical: set<string>)
    requires Comment(mark)
    ensures Worth(["", mark], m, m, [], canonical)
  {
    CommentIsInert(mark, canonical);
    assert Inert("", canonical);
    InertIsWorthNothing(m, ["", mark], canonical);
  }

  /** The foreign tail gives back its lines, and no setting of a managed key. */
  lemma TailKeeps(f: Form, m: map<string, string>, foreign: seq<string>, canonical: set<string>)
    returns (out: map<string, string>)
    requires KeptLines(foreign, canonical) && Comment(f.userMark)
    ensures Worth(ForeignTail(f, foreign) + [[]], m, out, foreign, canonical) && SameOn(m, out, canonical)
  {
    out := Fold(Step, m, foreign);
    ForeignFold(m, foreign, canonical);
    KeptAreKept(foreign, canonical);
    assert Worth(foreign, m, out, foreign, canonical);
    assert Inert([], canonical);
    InertIsWorthNothing(out, [[]], canonical);
    if foreign == [] {
      assert ForeignTail(f, foreign) + [[]] == [[]];
    } else {
      MarkIsWorthNothing(m, f.userMark, canonical);
      WorthAppend(["", f.userMark], foreign, m, m, out, [], foreign, canonical);
      assert [] + foreign == foreign;
      WorthAppend(ForeignTail(f, foreign), [[]], m, out, out, foreign, [], canonical);
      assert foreign + [] == foreign;
    }
  }

  lemma {:induction false} KeptAreKept(foreign: seq<string>, canonical: set<string>)
    requires KeptLines(foreign, canonical)
    ensures Foreign(foreign, canonical) == foreign
  {
    if foreign != [] {
      KeptAreKept(foreign[1..], canonical);
      assert foreign == [foreign[0]] + foreign[1..];
    }
  }

  type Settings = map<string, string>

  lemma FourWorth(a: seq<string>, b: seq<string>, c: seq<string>, d: seq<string>,
                  m1: Settings, m2: Settings, m3: Settings, foreign: seq<string>, canonical: set<string>)
    requires Worth(a, map[], map[], [], canonical) && Worth(b, map[], m1, [], canonical)
    requires Worth(c, m1, m2, [], canonical) && Worth(d, m2, m3, foreign, canonical)
    ensures Worth(a + b + c + d, map[], m3, foreign, canonical)
  {
    WorthAppend(a, b, map[], map[], m1, [], [], canonical);
    WorthAppend(a + b, c, map[], m1, m2, [], [], canonical);
    WorthAppend(a + b + c, d, map[], m2, m3, [], foreign, canonical);
    assert [] + foreign == foreign;
  }

  lemma LastEmpty(a: seq<string>, b: seq<string>)
    ensures a + (b + [[]]) == a + b + [[]]
  {
  }

  lemma KeysAreRead(f: Form, values: map<string, string>) returns (m: Settings)
    requires ValidForm(f) && forall i :: 0 <= i < |f.keys| ==> Clean(Get(values, f.keys[i].name))
    ensures Worth(KeyLines(f.keys, values), map[][f.versionKey := f.version], m, [], AllKeys(f))
    ensures Reads(m, f.keys, values) && f.versionKey in m && m[f.versionKey] == f.version
  {
    assert forall i :: 0 <= i < |f.keys| ==> f.keys[i] in f.keys && f.keys[i].name in AllKeys(f);
    m := KeyLinesRead(map[][f.versionKey := f.version], f.keys, values, AllKeys(f));
  }

  lemma FileIsRead(f: Form, values: map<string, string>, foreign: seq<string>) returns (m: Settings)
    requires ValidForm(f) && KeptLines(foreign, AllKeys(f))
    requires forall i :: 0 <= i < |f.keys| ==> Clean(Get(values, f.keys[i].name))
    ensures Worth(FileLines(f, values, foreign) + [[]], map[], m, foreign, AllKeys(f))
    ensures Reads(m, f.keys, values) && Get(m, f.versionKey) == f.version
  {
    HeaderIsWorthNothing(map[], f.header, AllKeys(f));
    VersionIsWorth(f, map[]);
    var m2 := KeysAreRead(f, values);
    m := TailKeeps(f, m2, foreign, AllKeys(f));
    FourWorth(f.header, VersionLines(f), KeyLines(f.keys, values), ForeignTail(f, foreign) + [[]],
              map[][f.versionKey := f.version], m2, m, foreign, AllKeys(f));
    LastEmpty(f.header + VersionLines(f) + KeyLines(f.keys, values), ForeignTail(f, foreign));
    AllAreCanonical(f);
  }

  lemma AllAreCanonical(f: Form)
    ensures f.versionKey in AllKeys(f) && forall i :: 0 <= i < |f.keys| ==> f.keys[i].name in AllKeys(f)
  {
    assert forall i :: 0 <= i < |f.keys| ==> f.keys[i] in f.keys;
  }

  lemma Unsplit(lines: seq<string>, m: map<string, string>, foreign: seq<string>, canonical: set<string>)
    requires Worth(lines + [[]], map[], m, foreign, canonical)
    ensures Parsed(Unlines(lines)) == Some(m) && Foreign(Split(Unlines(lines), '\n'), canonical) == foreign
  {
    forall l | l in lines
      ensures '\n' !in l
    {
      var i :| 0 <= i < |lines| && lines[i] == l;
      assert (lines + [[]])[i] == l;
    }
    SplitUnlines(lines);
  }

  /** Parsing the rendered file gives back the version and the values, when these are clean, and the
      walker finds the foreign lines again, in order. */
  lemma RenderedReadsBack(f: Form, values: map<string, string>, foreign: seq<string>)
    requires ValidForm(f) && KeptLines(foreign, AllKeys(f))
    requires forall i :: 0 <= i < |f.keys| ==> Clean(Get(values, f.keys[i].name))
    ensures var text := Unlines(FileLines(f, values, foreign));
            && Parsed(text).Some?
            && Reads(Parsed(text).value, f.keys, values) && Get(Parsed(text).value, f.versionKey) == f.version
            && Foreign(Split(text, '\n'), AllKeys(f)) == foreign
  {
    var m := FileIsRead(f, values, foreign);
    Unsplit(FileLines(f, values, foreign), m, foreign, AllKeys(f));
  }

  // ---------------------------------------------------------------------------------------
  // Two runs
  // ---------------------------------------------------------------------------------------

  lemma {:induction false} WalkerKeeps(pieces: seq<string>, canonical: set<string>)
    requires forall i :: 0 <= i < |pieces| ==> '\n' !in pieces[i] && |pieces[i]| <= MAX_LINE
    ensures KeptLines(Foreign(pieces, canonical), canonical)
  {
    if pieces != [] {
      WalkerKeeps(pieces[1..], canonical);
      var kept := ForeignLine(pieces[0], canonical);
      if kept != [] {
        ForeignAgain(pieces[0], canonical);
        TrimIsPart(pieces[0], '\n');
      }
    }
  }

  lemma TrimIsPart(s: string, c: char)
    requires c !in s
    ensures c !in TrimSpace(s) && |TrimSpace(s)| <= |s|
  {
    LeftIsPart(s, c);
    RightIsPart(TrimLeft(s), c);
  }

  lemma {:induction false} LeftIsPart(s: string, c: char)
    requires c !in s
    ensures c !in TrimLeft(s)
  {
    if s != [] && IsSpace(s[0]) {
      LeftIsPart(s[1..], c);
    }
  }

  lemma {:induction false} RightIsPart(s: string, c: char)
    requires c !in s
    ensures c !in TrimRight(s)
  {
    if s != [] && IsSpace(s[|s| - 1]) {
      RightIsPart(s[..|s| - 1], c);
    }
  }

  /** What an existing file gives: clean values, and foreign lines that will be kept again. */
  lemma ExistingIsClean(f: Form, text: Option<string>)
    requires ExistingOf(text).Some?
    ensures AllClean(ExistingOf(text).value) && KeptLines(ForeignOf(f, text), AllKeys(f))
  {
    if text.Some? {
      var pieces := Split(text.value, '\n');
      SplitPieces(text.value, '\n');
      assert forall i :: 0 <= i < |pieces| ==> pieces[i] in pieces;
      ParsedIsClean(map[], pieces);
      WalkerKeeps(pieces, AllKeys(f));
    }
  }

  lemma {:induction false} MergedAt(keys: seq<Key>, flags: map<string, string>, existing: map<string, string>, i: nat)
    requires i < |keys| && DistinctNames(keys)
    ensures Get(Merged(keys, flags, existing), keys[i].name) == Final(keys[i], flags, existing)
  {
    var front := keys[..|keys| - 1];
    if i < |front| {
      assert forall j :: 0 <= j < |front| ==> front[j] == keys[j];
      MergedAt(front, flags, existing, i);
    }
  }

  predicate AsFinal(k: Key, flags: map<string, string>, existing: map<string, string>) {
    Get(existing, k.name) == Final(k, flags, existing)
  }

  lemma {:induction false} ChangedNone(keys: seq<Key>, flags: map<string, string>, existing: map<string, string>)
    requires forall k :: k in keys ==> AsFinal(k, flags, existing)
    ensures Changed(keys, flags, existing) == []
  {
    if keys != [] {
      var front, last := keys[..|keys| - 1], keys[|keys| - 1];
      assert last in keys && AsFinal(last, flags, existing);
      ChangedNone(front, flags, existing);
    }
  }

  lemma {:induction false} ChangedSome(keys: seq<Key>, flags: map<string, string>, existing: map<string, string>,
                                       i: nat)
    requires i < |keys| && !AsFinal(keys[i], flags, existing)
    ensures Changed(keys, flags, existing) != []
  {
    if i < |keys| - 1 {
      ChangedSome(keys[..|keys| - 1], flags, existing, i);
    } else {
      assert [keys[i].name] != [];
    }
  }

  ghost predicate FinalsClean(f: Form, flags: map<string, string>, existing: map<string, string>) {
    forall i :: 0 <= i < |f.keys| ==> Clean(Final(f.keys[i], flags, existing))
  }

  /** A run that wrote, with clean final values: every managed key then reads as its merged value, a value
      that was there and not overridden is the same, and so are the foreign lines. */
  lemma WrittenReadsBack(f: Form, flags: map<string, string>, s: Files)
    requires ValidForm(f) && Regenerate(f, flags, s, true, true).0 in {Created, Regenerated}
    requires FinalsClean(f, flags, ExistingOf(s.file).value)
    ensures var existing := ExistingOf(s.file).value;
            var t := Regenerate(f, flags, s, true, true).1;
            && t.file.Some? && ExistingOf(t.file).Some?
            && Get(ExistingOf(t.file).value, f.versionKey) == f.version
            && ForeignOf(f, t.file) == ForeignOf(f, s.file)
            && Foreign(Split(t.file.value, '\n'), AllKeys(f))
               == (if s.file.Some? then Foreign(Split(s.file.value, '\n'), AllKeys(f)) else [])
            && (forall i :: 0 <= i < |f.keys| ==>
                  var name := f.keys[i].name;
                  && Get(ExistingOf(t.file).value, name) == Final(f.keys[i], flags, existing)
                  && (Get(existing, name) != "" && (Get(flags, name) == "" || f.keys[i].keepsExisting)
                      ==> Get(ExistingOf(t.file).value, name) == Get(existing, name)))
  {
    var existing := ExistingOf(s.file).value;
    var values := Merged(f.keys, flags, existing);
    ExistingIsClean(f, s.file);
    forall i | 0 <= i < |f.keys|
      ensures Get(values, f.keys[i].name) == Final(f.keys[i], flags, existing)
    {
      MergedAt(f.keys, flags, existing, i);
    }
    RenderedReadsBack(f, values, ForeignOf(f, s.file));
  }

  lemma CleanFlagsAreEnough(f: Form, flags: map<string, string>, s: Files)
    requires ValidForm(f) && ExistingOf(s.file).Some?
    requires forall i :: 0 <= i < |f.keys| ==> Clean(Get(flags, f.keys[i].name))
    ensures FinalsClean(f, flags, ExistingOf(s.file).value)
  {
    ExistingIsClean(f, s.file);
    assert Clean("");
  }

  /** What a key reads as after a run that wrote, when the flags are clean: a given flag wins, except that the
      file keeps the value it has of a key like the tracker; a key without a flag keeps its value, and one
      without either gets its fallback. */
  lemma GivenFlagWins(f: Form, flags: map<string, string>, s: Files, i: nat)
    requires ValidForm(f) && Regenerate(f, flags, s, true, true).0 in {Created, Regenerated} && i < |f.keys|
    requires forall j :: 0 <= j < |f.keys| ==> Clean(Get(flags, f.keys[j].name))
    ensures var again := ExistingOf(Regenerate(f, flags, s, true, true).1.file);
            var k := f.keys[i];
            var was, given := Get(ExistingOf(s.file).value, k.name), Get(flags, k.name);
            && again.Some?
            && (given != "" && !k.keepsExisting ==> Get(again.value, k.name) == given)
            && (given != "" && was == "" ==> Get(again.value, k.name) == given)
            && (k.keepsExisting && was != "" ==> Get(again.value, k.name) == was)
            && (given == "" && was != "" ==> Get(again.value, k.name) == was)
            && (given == "" && was == "" ==> Get(again.value, k.name) == k.fallback)
  {
    CleanFlagsAreEnough(f, flags, s);
    WrittenReadsBack(f, flags, s);
  }

  /** After a run that wrote, every managed key reads as the value it ended up with if and only if all these
      values are clean: one line, no carriage return, at most 200 bytes. */
  lemma ReadsBackExactly(f: Form, flags: map<string, string>, s: Files)
    requires ValidForm(f) && Regenerate(f, flags, s, true, true).0 in {Created, Regenerated}
    ensures var existing := ExistingOf(s.file).value;
            var again := ExistingOf(Regenerate(f, flags, s, true, true).1.file);
            (again.Some? && forall i :: 0 <= i < |f.keys| ==>
               Get(again.value, f.keys[i].name) == Final(f.keys[i], flags, existing))
            <==> FinalsClean(f, flags, existing)
  {
    var t := Regenerate(f, flags, s, true, true).1;
    if FinalsClean(f, flags, ExistingOf(s.file).value) {
      WrittenReadsBack(f, flags, s);
    } else if ExistingOf(t.file).Some? {
      ExistingIsClean(f, t.file);
      assert Clean("");
    }
  }

  /** The file is backed up before it is overwritten, and nothing else touches it. */
  lemma BackedUpFirst(f: Form, flags: map<string, string>, s: Files, readable: bool, writable: bool)
    ensures var (kind, t) := Regenerate(f, flags, s, readable, writable);
            && (t.file != s.file && s.file.Some? ==> t.backup == s.file)
            && (kind in {Skip, ReadFailed, ParseFailed} ==> t == s)
            && (kind == WriteFailed ==> t.file == s.file)
  {
  }

  lemma MergesAgain(k: Key, flags: map<string, string>, existing: map<string, string>, again: map<string, string>)
    requires Get(again, k.name) == Final(k, flags, existing)
    ensures Final(k, flags, again) == Final(k, flags, existing)
  {
  }

  /** A second run with the same flags is a skip exactly when all final values are clean: one line, no
      carriage return, at most 200 bytes. It is asked of a tracker value beforehand, since the file wins
      over its flag and so hides what was lost of it. */
  lemma SecondRunSkipsExactly(f: Form, flags: map<string, string>, s: Files)
    requires ValidForm(f) && Regenerate(f, flags, s, true, true).0 in {Created, Regenerated}
    requires forall i :: 0 <= i < |f.keys| && f.keys[i].keepsExisting ==>
               Clean(Final(f.keys[i], flags, ExistingOf(s.file).value))
    ensures var t := Regenerate(f, flags, s, true, true).1;
            Regenerate(f, flags, t, true, true) == (Skip, t) <==> FinalsClean(f, flags, ExistingOf(s.file).value)
  {
    var existing := ExistingOf(s.file).value;
    var t := Regenerate(f, flags, s, true, true).1;
    if FinalsClean(f, flags, existing) {
      WrittenReadsBack(f, flags, s);
      var again := ExistingOf(t.file).value;
      forall k | k in f.keys
        ensures AsFinal(k, flags, again)
      {
        var i :| 0 <= i < |f.keys| && f.keys[i] == k;
        MergesAgain(f.keys[i], flags, existing, again);
      }
      ChangedNone(f.keys, flags, again);
    } else {
      var i :| 0 <= i < |f.keys| && !Clean(Final(f.keys[i], flags, existing));
      ExistingIsClean(f, s.file);
      if ExistingOf(t.file).Some? {
        ExistingIsClean(f, t.file);
        DirtyStays(f.keys[i], flags, existing, ExistingOf(t.file).value);
        ChangedSome(f.keys, flags, ExistingOf(t.file).value, i);
      }
    }
  }

  /** A dirty value can only come from a flag, and then it never matches what is parsed. */
  lemma DirtyStays(k: Key, flags: map<string, string>, existing: map<string, string>, again: map<string, string>)
    requires ValidKey(k) && !k.keepsExisting && AllClean(existing) && AllClean(again)
    requires !Clean(Final(k, flags, existing))
    ensures !AsFinal(k, flags, again)
  {
    assert Clean("");
  }

  /** A value of more than 200 bytes is not kept: the file is read back with its first 200. */
  lemma LongValueIsCut(name: string, value: string)
    requires ValidName(name) && '\n' !in value && '\r' !in value && |value| > MAX_VALUE_LEN
    ensures Setting(name + ['='] + value) == Some((name, value[..MAX_VALUE_LEN]))
  {
    var line := name + ['='] + value;
    EqualsAt(name, value);
    assert line[..|name|] == name && line[|name| + 1..] == value;
    NoReturnsKeeps(value, 'x');
    TrimmedHead(name);
    TrimKeepsHead(line);
  }
}
