/** Writing `.env` anew: merge the given flags with what the file says, skip when it already says so, else
    back it up and render it, the foreign lines at the end. */
module EnvRegenerate {
  import opened EnvFile
  import opened Folds
  import opened Lines
  import opened Option
  import opened Text

  /** A managed key. `fallback` is empty where the default stays implicit; `keepsExisting`: what the file
      has wins over the flag (the tracker). */
  datatype Key = Key(name: string, comment: string, fallback: string, keepsExisting: bool)

  /** What a file is rendered from: header lines, the version marker under its comment, the managed keys
      in order, and the comment line above the foreign ones. */
  datatype Form = Form(header: seq<string>, managed: string, versionKey: string, version: string, keys: seq<Key>,
                       userMark: string)

  predicate Comment(line: string) {
    line != "" && line[0] == '#' && '\n' !in line && |line| <= MAX_LINE
  }

  function Canonical(f: Form): set<string> {
    set k | k in f.keys :: k.name
  }

  predicate DistinctNames(keys: seq<Key>) {
    forall i, j :: 0 <= i < j < |keys| ==> keys[i].name != keys[j].name
  }

  predicate ValidKey(k: Key) {
    && ValidName(k.name) && |k.name| + 1 + MAX_VALUE_LEN <= MAX_LINE && Comment("# " + k.comment) && Clean(k.fallback)
  }

  ghost predicate ValidForm(f: Form) {
    && (forall i :: 0 <= i < |f.header| ==> Comment(f.header[i]))
    && Comment("# " + f.managed) && Comment(f.userMark)
    && ValidName(f.versionKey) && |f.versionKey| + 1 + MAX_VALUE_LEN <= MAX_LINE && Clean(f.version)
    && (forall i :: 0 <= i < |f.keys| ==> ValidKey(f.keys[i]) && f.keys[i].name != f.versionKey)
    && DistinctNames(f.keys)
  }

  function Get(m: map<string, string>, k: string): string {
    if k in m then m[k] else ""
  }

  /** The value a key ends up with (`mergePrefs`). */
  function Final(k: Key, flags: map<string, string>, existing: map<string, string>): string {
    if k.keepsExisting && Get(existing, k.name) != "" then Get(existing, k.name)
    else if Get(flags, k.name) != "" then Get(flags, k.name)
    else if Get(existing, k.name) != "" then Get(existing, k.name)
    else k.fallback
  }

  function Merged(keys: seq<Key>, flags: map<string, string>, existing: map<string, string>): map<string, string> {
    if keys == [] then map[]
    else
      var last := keys[|keys| - 1];
      Merged(keys[..|keys| - 1], flags, existing)[last.name := Final(last, flags, existing)]
  }

  /** The keys whose value differs, in order (`diffKeys`). */
  function Changed(keys: seq<Key>, flags: map<string, string>, existing: map<string, string>): seq<string> {
    if keys == [] then []
    else
      var last := keys[|keys| - 1];
      Changed(keys[..|keys| - 1], flags, existing)
      + if Get(existing, last.name) != Final(last, flags, existing) then [last.name] else []
  }

  function KeyLines(keys: seq<Key>, values: map<string, string>): seq<string> {
    if keys == [] then []
    else
      var last := keys[|keys| - 1];
      KeyLines(keys[..|keys| - 1], values) + ["", "# " + last.comment, last.name + ['='] + Get(values, last.name)]
  }

  function VersionLines(f: Form): seq<string> {
    ["", "# " + f.managed, f.versionKey + ['='] + f.version]
  }

  function ForeignTail(f: Form, foreign: seq<string>): seq<string> {
    if foreign == [] then [] else ["", f.userMark] + foreign
  }

  function FileLines(f: Form, values: map<string, string>, foreign: seq<string>): seq<string> {
    f.header + VersionLines(f) + KeyLines(f.keys, values) + ForeignTail(f, foreign)
  }

  /** A blank line, a comment and a setting. */
  function Block(comment: string, setting: string): string {
    ['\n'] + comment + ['\n'] + setting + ['\n']
  }

  lemma BlockLines(comment: string, setting: string)
    ensures Unlines(["", comment, setting]) == Block(comment, setting)
  {
    var lines := ["", comment, setting];
    assert lines[1..] == [comment, setting] && lines[1..][1..] == [setting] && [setting][1..] == [];
    assert Unlines([setting]) == setting + ['\n'];
    assert Unlines([comment, setting]) == comment + ['\n'] + (setting + ['\n']);
  }

  /** `renderTemplateKeys` */
  method RenderTemplateKeys(f: Form, values: map<string, string>) returns (body: string)
    ensures body == Unlines(f.header + VersionLines(f) + KeyLines(f.keys, values))
  {
    body := Unlines(f.header) + Block("# " + f.managed, f.versionKey + ['='] + f.version);
    ghost var head := f.header + VersionLines(f);
    UnlinesAppend(f.header, VersionLines(f));
    BlockLines("# " + f.managed, f.versionKey + ['='] + f.version);
    assert head + KeyLines(f.keys[..0], values) == head;
    for i := 0 to |f.keys|
      invariant body == Unlines(head + KeyLines(f.keys[..i], values))
    {
      var k := f.keys[i];
      var comment, setting := "# " + k.comment, k.name + ['='] + Get(values, k.name);
      assert f.keys[..i + 1][..i] == f.keys[..i];
      assert head + KeyLines(f.keys[..i + 1], values) == head + KeyLines(f.keys[..i], values) + ["", comment, setting];
      UnlinesAppend(head + KeyLines(f.keys[..i], values), ["", comment, setting]);
      BlockLines(comment, setting);
      body := body + Block(comment, setting);
    }
    assert f.keys[..|f.keys|] == f.keys;
  }

  datatype Kind = Created | Skip | Regenerated | ReadFailed | ParseFailed | WriteFailed

  datatype Files = Files(file: Option<string>, backup: Option<string>)

  function ExistingOf(text: Option<string>): Option<map<string, string>> {
    if text.None? then Some(map[]) else Parsed(text.value)
  }

  function ForeignOf(f: Form, text: Option<string>): seq<string> {
    if text.None? then [] else Foreign(Split(text.value, '\n'), Canonical(f) + {f.versionKey})
  }

  function Body(f: Form, flags: map<string, string>, existing: map<string, string>, foreign: seq<string>): string {
    Unlines(FileLines(f, Merged(f.keys, flags, existing), foreign))
  }

  /** Whether the file already says everything. */
  predicate InSync(f: Form, flags: map<string, string>, text: Option<string>, existing: map<string, string>) {
    text.Some? && Get(existing, f.versionKey) == f.version && Changed(f.keys, flags, existing) == []
  }

  /** The specification of `RegenerateEnv` and `RegenerateUserEnv`. */
  function Regenerate(f: Form, flags: map<string, string>, s: Files, readable: bool, writable: bool): (Kind, Files) {
    if !readable then (ReadFailed, s)
    else
      var existing := ExistingOf(s.file);
      if existing.None? then (ParseFailed, s)
      else if InSync(f, flags, s.file, existing.value) then (Skip, s)
      else
        var backed := if s.file.Some? then s.(backup := s.file) else s;
        if !writable then (WriteFailed, backed)
        else (if s.file.Some? then Regenerated else Created,
              backed.(file := Some(Body(f, flags, existing.value, ForeignOf(f, s.file)))))
  }

  /** The file already has what the key is to have: its value, unless a flag that counts says otherwise; and a key
      it does not set is given neither by a flag nor by default. */
  predicate HasIt(k: Key, flags: map<string, string>, existing: map<string, string>) {
    var was, given := Get(existing, k.name), Get(flags, k.name);
    if was != "" then given == "" || given == was || k.keepsExisting else given == "" && k.fallback == ""
  }

  lemma HasItExactly(k: Key, flags: map<string, string>, existing: map<string, string>)
    ensures HasIt(k, flags, existing) <==> Get(existing, k.name) == Final(k, flags, existing)
  {
  }

  predicate AllHad(keys: seq<Key>, flags: map<string, string>, existing: map<string, string>) {
    forall i :: 0 <= i < |keys| ==> HasIt(keys[i], flags, existing)
  }

  predicate Lacking(keys: seq<Key>, flags: map<string, string>, existing: map<string, string>, name: string) {
    exists i :: 0 <= i < |keys| && keys[i].name == name && !HasIt(keys[i], flags, existing)
  }

  lemma AllHadNext(keys: seq<Key>, flags: map<string, string>, existing: map<string, string>)
    requires keys != []
    ensures AllHad(keys, flags, existing)
            <==> AllHad(keys[..|keys| - 1], flags, existing) && HasIt(keys[|keys| - 1], flags, existing)
  {
    var front := keys[..|keys| - 1];
    if AllHad(keys, flags, existing) {
      forall i | 0 <= i < |front|
        ensures HasIt(front[i], flags, existing)
      {
        assert front[i] == keys[i];
      }
    }
    if AllHad(front, flags, existing) && HasIt(keys[|keys| - 1], flags, existing) {
      forall i | 0 <= i < |keys|
        ensures HasIt(keys[i], flags, existing)
      {
        assert i < |front| ==> front[i] == keys[i];
      }
    }
  }

  lemma {:induction false} NoneChanged(keys: seq<Key>, flags: map<string, string>, existing: map<string, string>)
    ensures Changed(keys, flags, existing) == [] <==> AllHad(keys, flags, existing)
  {
    if keys != [] {
      NoneChanged(keys[..|keys| - 1], flags, existing);
      HasItExactly(keys[|keys| - 1], flags, existing);
      AllHadNext(keys, flags, existing);
    }
  }

  lemma LackingNext(keys: seq<Key>, flags: map<string, string>, existing: map<string, string>, name: string)
    requires keys != []
    ensures var front, last := keys[..|keys| - 1], keys[|keys| - 1];
            Lacking(keys, flags, existing, name)
            <==> Lacking(front, flags, existing, name) || (last.name == name && !HasIt(last, flags, existing))
  {
    var front, n := keys[..|keys| - 1], |keys| - 1;
    if i :| 0 <= i < |front| && front[i].name == name && !HasIt(front[i], flags, existing) {
      assert keys[i] == front[i];
    }
    if i :| 0 <= i < |keys| && keys[i].name == name && !HasIt(keys[i], flags, existing) {
      assert i < n ==> front[i] == keys[i];
    }
  }

  /** The keys reported as changed are those the file does not have as they are to be, and no others. */
  lemma {:induction false} ChangedExactly(keys: seq<Key>, flags: map<string, string>, existing: map<string, string>,
                                          name: string)
    ensures name in Changed(keys, flags, existing) <==> Lacking(keys, flags, existing, name)
  {
    if keys != [] {
      ChangedExactly(keys[..|keys| - 1], flags, existing, name);
      LackingNext(keys, flags, existing, name);
      HasItExactly(keys[|keys| - 1], flags, existing);
    }
  }

  /** What a run answers, each exactly when, and what it leaves. */
  ghost predicate RunIs(f: Form, flags: map<string, string>, s: Files, readable: bool, writable: bool, kind: Kind,
                        t: Files)
  {
    var existing := ExistingOf(s.file);
    var parsed := readable && existing.Some?;
    var done := parsed && s.file.Some? && Get(existing.value, f.versionKey) == f.version
                && AllHad(f.keys, flags, existing.value);
    && (kind == ReadFailed <==> !readable)
    && (kind == ParseFailed <==> readable && s.file.Some? && existing == None)
    && (kind == Skip <==> done)
    && (kind == WriteFailed <==> parsed && !done && !writable)
    && (kind == Regenerated <==> parsed && !done && writable && s.file.Some?)
    && (kind == Created <==> readable && writable && s.file == None)
    && t.backup == (if parsed && !done && s.file.Some? then s.file else s.backup)
    && (t.file != s.file ==> kind in {Regenerated, Created})
    && (kind in {Regenerated, Created} ==> t.file.Some?)
  }

  lemma RunExactly(f: Form, flags: map<string, string>, s: Files, readable: bool, writable: bool)
    ensures var (kind, t) := Regenerate(f, flags, s, readable, writable);
            RunIs(f, flags, s, readable, writable, kind, t)
  {
    if readable && ExistingOf(s.file).Some? {
      NoneChanged(f.keys, flags, ExistingOf(s.file).value);
    }
  }

  class EnvDir {
    var file: Option<string>
    var backup: Option<string>

    ghost function State(): Files reads this { Files(file, backup) }

    constructor (file: Option<string>, backup: Option<string>)
      ensures State() == Files(file, backup)
    {
      this.file, this.backup := file, backup;
    }

    static method Merge(keys: seq<Key>, flags: map<string, string>, existing: map<string, string>)
      returns (values: map<string, string>, changed: seq<string>)
      ensures values == Merged(keys, flags, existing) && changed == Changed(keys, flags, existing)
    {
      values, changed := map[], [];
      for i := 0 to |keys|
        invariant values == Merged(keys[..i], flags, existing) && changed == Changed(keys[..i], flags, existing)
      {
        assert keys[..i + 1][..i] == keys[..i];
        var k := keys[i];
        var value := k.fallback;
        if k.keepsExisting && Get(existing, k.name) != "" {
          value := Get(existing, k.name);
        } else if Get(flags, k.name) != "" {
          value := Get(flags, k.name);
        } else if Get(existing, k.name) != "" {
          value := Get(existing, k.name);
        }
        values := values[k.name := value];
        if Get(existing, k.name) != value { changed := changed + [k.name]; }
      }
      assert keys[..|keys|] == keys;
    }

    static method Compose(f: Form, values: map<string, string>, block: string, ghost foreign: seq<string>)
      returns (body: string)
      requires block == Unlines(foreign)
      ensures body == Unlines(FileLines(f, values, foreign))
    {
      body := RenderTemplateKeys(f, values);
      var head := f.header + VersionLines(f) + KeyLines(f.keys, values);
      UnlinesAppend(head, ForeignTail(f, foreign));
      if block != "" {
        assert foreign != [];
        UnlinesAppend(["", f.userMark], foreign);
        assert ["", f.userMark][1..] == [f.userMark] && [f.userMark][1..] == [];
        body := body + (['\n'] + f.userMark + ['\n']) + block;
      } else {
        NoLines(foreign);
        assert body + [] == body;
      }
    }

    /** `RegenerateEnv`: which outcome, exactly when; the file that was there is backed up exactly when it is about
        to be replaced; and the keys reported are those that were not as they are to be. */
    method RegenerateEnv(f: Form, flags: map<string, string>, readable: bool, writable: bool)
      returns (kind: Kind, changed: seq<string>)
      modifies this
      ensures (kind, State()) == Regenerate(f, flags, old(State()), readable, writable)
      ensures RunIs(f, flags, old(State()), readable, writable, kind, State())
      ensures kind !in {ReadFailed, ParseFailed}
              ==> changed == Changed(f.keys, flags, ExistingOf(old(file)).value)
      ensures kind !in {ReadFailed, ParseFailed} ==>
                forall name :: name in changed <==> Lacking(f.keys, flags, ExistingOf(old(file)).value, name)
    {
      kind, changed := WriteAnew(f, flags, readable, writable);
      RunExactly(f, flags, old(State()), readable, writable);
      if kind !in {ReadFailed, ParseFailed} {
        forall name
          ensures name in changed <==> Lacking(f.keys, flags, ExistingOf(old(file)).value, name)
        {
          ChangedExactly(f.keys, flags, ExistingOf(old(file)).value, name);
        }
      }
    }

    /** Its steps: parse, merge, skip or back up, render, write. */
    method WriteAnew(f: Form, flags: map<string, string>, readable: bool, writable: bool)
      returns (kind: Kind, changed: seq<string>)
      modifies this
      ensures (kind, State()) == Regenerate(f, flags, old(State()), readable, writable)
      ensures kind !in {ReadFailed, ParseFailed}
              ==> changed == Changed(f.keys, flags, ExistingOf(old(file)).value)
    {
      if !readable { return ReadFailed, []; }
      var existing: map<string, string> := map[];
      var block := "";
      if file.Some? {
        var parsed := Parse(file.value);
        if parsed.None? { return ParseFailed, []; }
        existing := parsed.value;
        block := ExtractForeignKeysSet(file.value, (set k | k in f.keys :: k.name) + {f.versionKey});
      }
      ghost var foreign := ForeignOf(f, file);
      var values: map<string, string>;
      values, changed := Merge(f.keys, flags, existing);
      if file.Some? && Get(existing, f.versionKey) == f.version && |changed| == 0 { return Skip, changed; }
      var existed := file.Some?;
      if existed { backup := file; }
      var body := Compose(f, values, block, foreign);
      if !writable { return WriteFailed, changed; }
      file := Some(body);
      kind := if existed then Regenerated else Created;
    }
  }

  lemma NoLines(foreign: seq<string>)
    requires Unlines(foreign) == ""
    ensures foreign == []
  {
  }

  // ---------------------------------------------------------------------------------------
  // What the rendered file parses to
  // ---------------------------------------------------------------------------------------

  predicate Inert(piece: string, canonical: set<string>) {
    Setting(Scanned(piece)) == None && ForeignLine(piece, canonical) == [] && '\n' !in piece && |piece| <= MAX_LINE
  }

  lemma CommentIsInert(line: string, canonical: set<string>)
    requires Comment(line)
    ensures Inert(line, canonical)
  {
    TrimKeepsHead(line);
    var s := Scanned(line);
    if s != [] {
      assert s[0] == '#';
      TrimKeepsHead(s);
    }
  }

  lemma {:induction false} TrimRightAfter(front: string, value: string)
    requires front != "" && !IsSpace(front[|front| - 1])
    ensures TrimRight(front + value) == front + TrimRight(value)
  {
    if value == [] {
      assert front + value == front;
      assert front + TrimRight(value) == front;
    } else if IsSpace(value[|value| - 1]) {
      TrimRightAfter(front, value[..|value| - 1]);
      assert (front + value)[..|front + value| - 1] == front + value[..|value| - 1];
    }
  }

  /** A key line holds no foreign key. */
  lemma KeyLineIsCanonical(name: string, value: string, canonical: set<string>)
    requires ValidName(name) && name in canonical
    ensures ForeignLine(name + ['='] + value, canonical) == []
  {
    var line := name + ['='] + value;
    TrimmedHead(name);
    assert TrimLeft(line) == line;
    TrimRightAfter(name + ['='], value);
    var s := TrimSpace(line);
    assert s == name + ['='] + TrimRight(value);
    EqualsAt(name, TrimRight(value));
    assert s[..|name|] == name;
  }

  /** Lines that leave the settings of the canonical keys alone. */
  lemma {:induction false} InertFold(m: map<string, string>, pieces: seq<string>, canonical: set<string>)
    requires forall i :: 0 <= i < |pieces| ==> Inert(pieces[i], canonical)
    ensures Fold(Step, m, pieces) == m
    decreases |pieces|
  {
    if pieces != [] {
      assert Inert(pieces[0], canonical);
      InertFold(m, pieces[1..], canonical);
    }
  }

  /** Whether `b` agrees with `a` on the canonical keys. */
  predicate SameOn(a: map<string, string>, b: map<string, string>, canonical: set<string>) {
    forall k :: k in canonical && k in a ==> k in b && b[k] == a[k]
  }

  lemma {:induction false} ForeignFold(m: map<string, string>, foreign: seq<string>, canonical: set<string>)
    requires forall i :: 0 <= i < |foreign| ==> ForeignLine(foreign[i], canonical) == [foreign[i]]
    ensures SameOn(m, Fold(Step, m, foreign), canonical)
    decreases |foreign|
  {
    if foreign != [] {
      var s := foreign[0];
      ForeignSets(s, canonical);
      assert TrimSpace(s) == s;
      ForeignFold(Step(m, s), foreign[1..], canonical);
    }
  }

  predicate Reads(m: map<string, string>, keys: seq<Key>, values: map<string, string>) {
    forall i :: 0 <= i < |keys| ==> keys[i].name in m && m[keys[i].name] == Get(values, keys[i].name)
  }

  lemma ThreeSteps(m: map<string, string>, a: string, b: string, c: string)
    ensures Fold(Step, m, [a, b, c]) == Step(Step(Step(m, a), b), c)
  {
    assert [a, b, c][1..] == [b, c] && [b, c][1..] == [c] && [c][1..] == [];
    assert Fold(Step, Step(Step(m, a), b), [c]) == Step(Step(Step(m, a), b), c);
    assert Fold(Step, Step(m, a), [b, c]) == Fold(Step, Step(Step(m, a), b), [c]);
  }

  lemma KeyBlock(m: map<string, string>, k: Key, value: string, canonical: set<string>)
    requires ValidKey(k) && Clean(value) && k.name in canonical
    ensures Worth(["", "# " + k.comment, k.name + ['='] + value], m, m[k.name := value], [], canonical)
  {
    var block := ["", "# " + k.comment, k.name + ['='] + value];
    CommentIsInert(block[1], canonical);
    SettingOfLine(k.name, value);
    KeyLineIsCanonical(k.name, value, canonical);
    ThreeSteps(m, block[0], block[1], block[2]);
    forall i | 0 <= i < 3
      ensures ForeignLine(block[i], canonical) == [] && '\n' !in block[i] && |block[i]| <= MAX_LINE
    {
    }
    FlatMapNone(p => ForeignLine(p, canonical), block);
  }

  /** What a stretch of rendered lines is worth: one-line pieces, these foreign lines, and these settings. */
  ghost predicate Worth(pieces: seq<string>, m: map<string, string>, out: map<string, string>, foreign: seq<string>,
                        canonical: set<string>)
  {
    && Fold(Step, m, pieces) == out && Foreign(pieces, canonical) == foreign
    && forall i :: 0 <= i < |pieces| ==> '\n' !in pieces[i] && |pieces[i]| <= MAX_LINE
  }

  lemma WorthAppend(a: seq<string>, b: seq<string>, m: map<string, string>, mid: map<string, string>,
                    out: map<string, string>, fa: seq<string>, fb: seq<string>, canonical: set<string>)
    requires Worth(a, m, mid, fa, canonical) && Worth(b, mid, out, fb, canonical)
    ensures Worth(a + b, m, out, fa + fb, canonical)
  {
    FoldAppend(Step, m, a, b);
    FlatMapAppend(p => ForeignLine(p, canonical), a, b);
  }

  lemma InertIsWorthNothing(m: map<string, string>, pieces: seq<string>, canonical: set<string>)
    requires forall i :: 0 <= i < |pieces| ==> Inert(pieces[i], canonical)
    ensures Worth(pieces, m, m, [], canonical)
  {
    InertFold(m, pieces, canonical);
    FlatMapNone(p => ForeignLine(p, canonical), pieces);
  }

  /** Settings of other keys survive. */
  predicate Others(m: map<string, string>, out: map<string, string>, keys: seq<Key>) {
    forall k :: k in m && (forall i :: 0 <= i < |keys| ==> keys[i].name != k) ==> k in out && out[k] == m[k]
  }

  lemma ReadOneMore(m: map<string, string>, mid: map<string, string>, keys: seq<Key>, values: map<string, string>)
    requires keys != [] && DistinctNames(keys)
    requires var front := keys[..|keys| - 1]; Reads(mid, front, values) && Others(m, mid, front)
    ensures var last := keys[|keys| - 1].name;
            var out := mid[last := Get(values, last)];
            Reads(out, keys, values) && Others(m, out, keys)
  {
    var front, last := keys[..|keys| - 1], keys[|keys| - 1].name;
    var out := mid[last := Get(values, last)];
    forall i | 0 <= i < |keys|
      ensures keys[i].name in out && out[keys[i].name] == Get(values, keys[i].name)
    {
      if i < |front| {
        assert front[i] == keys[i];
      }
    }
    forall k | k in m && forall i :: 0 <= i < |keys| ==> keys[i].name != k
      ensures k in out && out[k] == m[k]
    {
      assert forall i :: 0 <= i < |front| ==> front[i] == keys[i];
      assert keys[|keys| - 1].name != k;
    }
  }

  predicate KeysOf(keys: seq<Key>, values: map<string, string>, canonical: set<string>) {
    forall i :: 0 <= i < |keys| ==> ValidKey(keys[i]) && keys[i].name in canonical && Clean(Get(values, keys[i].name))
  }

  lemma {:induction false} KeyLinesRead(m: map<string, string>, keys: seq<Key>, values: map<string, string>,
                                        canonical: set<string>)
    returns (out: map<string, string>)
    requires KeysOf(keys, values, canonical) && DistinctNames(keys)
    ensures Worth(KeyLines(keys, values), m, out, [], canonical) && Reads(out, keys, values) && Others(m, out, keys)
    decreases |keys|
  {
    if keys == [] {
      out := m;
    } else {
      var front, last := keys[..|keys| - 1], keys[|keys| - 1];
      assert forall i :: 0 <= i < |front| ==> front[i] == keys[i];
      var mid := KeyLinesRead(m, front, values, canonical);
      KeyBlock(mid, last, Get(values, last.name), canonical);
      out := mid[last.name := Get(values, last.name)];
      WorthAppend(KeyLines(front, values), ["", "# " + last.comment, last.name + ['='] + Get(values, last.name)],
                  m, mid, out, [], [], canonical);
      ReadOneMore(m, mid, keys, values);
    }
  }
}
