/** The paths a patch touches, read from `git apply --numstat -z`, forward and reversed. */
module PatchPaths {
  import opened Lines

  const NUL: char := '\0'
  const TAB: char := '\t'

  /** A listed file: its counts, and a path, or the two paths of a rename that follow an empty one. */
  datatype Record =
    | File(added: string, deleted: string, path: string)
    | Rename(added: string, deleted: string, src: string, dst: string)

  predicate ValidPath(p: string) {
    p != "" && NUL !in p
  }

  predicate ValidCount(c: string) {
    NUL !in c && TAB !in c
  }

  predicate Valid(r: Record) {
    && ValidCount(r.added) && ValidCount(r.deleted)
    && (match r
        case File(_, _, path) => ValidPath(path)
        case Rename(_, _, src, dst) => ValidPath(src) && ValidPath(dst))
  }

  function Counts(r: Record): string {
    r.added + [TAB] + r.deleted + [TAB]
  }

  function PrintOne(r: Record): string {
    match r
    case File(_, _, path) => Counts(r) + path + [NUL]
    case Rename(_, _, src, dst) => Counts(r) + [NUL] + src + [NUL] + dst + [NUL]
  }

  function Print(records: seq<Record>): string {
    if records == [] then [] else PrintOne(records[0]) + Print(records[1..])
  }

  function Named(r: Record): seq<string> {
    match r
    case File(_, _, path) => [path]
    case Rename(_, _, src, dst) => [src, dst]
  }

  function AllNamed(records: seq<Record>): seq<string> {
    if records == [] then [] else Named(records[0]) + AllNamed(records[1..])
  }

  /** What follows the second tab of a field, when it has two (`SplitN(field, "\t", 3)`). */
  function Third(field: string): seq<string> {
    var parts := Split(field, TAB);
    if |parts| < 3 then [] else [Join(parts[2..], TAB)]
  }

  /** The names in a list of fields, in order and with repeats. */
  function Names(fields: seq<string>): seq<string>
    decreases |fields|
  {
    if fields == [] then []
    else
      var third := Third(fields[0]);
      if third == [] then Names(fields[1..])
      else if third[0] == "" && |fields| > 2 then [fields[1], fields[2]] + Names(fields[3..])
      else [third[0]] + Names(fields[1..])
  }

  /** Non-empty and not yet seen names, in order of appearance. */
  function Fresh(seen: seq<string>, names: seq<string>): seq<string>
    decreases |names|
  {
    if names == [] then seen
    else Fresh(if names[0] == "" || names[0] in seen then seen else seen + [names[0]], names[1..])
  }

  /** One listing, added to the paths found so far. */
  method ReadListing(out: string, before: seq<string>) returns (paths: seq<string>)
    ensures paths == Fresh(before, Names(Split(out, NUL)))
  {
    var fields := Split(out, NUL);
    paths := before;
    var i := 0;
    assert fields[0..] == fields;
    while i < |fields|
      invariant 0 <= i <= |fields|
      invariant Fresh(paths, Names(fields[i..])) == Fresh(before, Names(fields))
      decreases |fields| - i
    {
      var rest := fields[i..];
      var third := Third(fields[i]);
      if |third| == 0 {
        i := i + 1;
        continue;
      }
      var names := [third[0]];
      if third[0] == "" && i + 2 < |fields| {
        names := [fields[i + 1], fields[i + 2]];
        i := i + 2;
        assert rest[3..] == fields[i + 1..];
      } else {
        assert rest[1..] == fields[i + 1..];
      }
      i := i + 1;
      assert Names(rest) == names + Names(fields[i..]);
      paths := AddAll(paths, names, Names(fields[i..]));
    }
  }

  method AddAll(before: seq<string>, names: seq<string>, ghost more: seq<string>) returns (paths: seq<string>)
    ensures Fresh(paths, more) == Fresh(before, names + more)
  {
    paths := before;
    assert names[0..] == names;
    for k := 0 to |names|
      invariant Fresh(paths, names[k..] + more) == Fresh(before, names + more)
    {
      assert (names[k..] + more)[1..] == names[k + 1..] + more;
      if names[k] != "" && names[k] !in paths { paths := paths + [names[k]]; }
    }
    assert names[|names|..] + more == more;
  }

  /** `patchPaths`: the forward listing, then the reversed one. */
  method Read(forward: string, backward: string) returns (paths: seq<string>)
    ensures paths == Fresh(Fresh([], Names(Split(forward, NUL))), Names(Split(backward, NUL)))
  {
    paths := ReadListing(forward, []);
    paths := ReadListing(backward, paths);
  }

  // ---------------------------------------------------------------------------------------
  // It reads back what git prints
  // ---------------------------------------------------------------------------------------

  lemma ThirdOfField(added: string, deleted: string, path: string)
    requires ValidCount(added) && ValidCount(deleted)
    ensures Third(added + [TAB] + deleted + [TAB] + path) == [path]
  {
    assert added + [TAB] + deleted + [TAB] + path == added + [TAB] + (deleted + [TAB] + path);
    SplitLine(added, deleted + [TAB] + path, TAB);
    SplitLine(deleted, path, TAB);
    var parts := Split(added + [TAB] + deleted + [TAB] + path, TAB);
    assert parts == [added, deleted] + Split(path, TAB);
    assert parts[2..] == Split(path, TAB);
    JoinSplit(path, TAB);
  }

  lemma NamesOfFile(r: Record, rest: string)
    requires r.File? && Valid(r)
    ensures Names(Split(PrintOne(r) + rest, NUL)) == Named(r) + Names(Split(rest, NUL))
  {
    var field := Counts(r) + r.path;
    ThirdOfField(r.added, r.deleted, r.path);
    assert PrintOne(r) + rest == field + [NUL] + rest;
    SplitLine(field, rest, NUL);
    assert ([field] + Split(rest, NUL))[1..] == Split(rest, NUL);
  }

  lemma NamesOfRename(r: Record, rest: string)
    requires r.Rename? && Valid(r)
    ensures Names(Split(PrintOne(r) + rest, NUL)) == Named(r) + Names(Split(rest, NUL))
  {
    ThirdOfField(r.added, r.deleted, "");
    assert Counts(r) + "" == Counts(r);
    ThreeFields(Counts(r), r.src, r.dst, rest);
    NamesOfThree(Counts(r), r.src, r.dst, Split(rest, NUL));
  }

  lemma ThreeFields(a: string, b: string, c: string, rest: string)
    requires NUL !in a && NUL !in b && NUL !in c
    ensures Split(a + [NUL] + b + [NUL] + c + [NUL] + rest, NUL) == [a, b, c] + Split(rest, NUL)
  {
    var tail := c + [NUL] + rest;
    assert a + [NUL] + b + [NUL] + c + [NUL] + rest == a + [NUL] + (b + [NUL] + tail);
    SplitLine(c, rest, NUL);
    SplitLine(b, tail, NUL);
    SplitLine(a, b + [NUL] + tail, NUL);
  }

  /** A record whose third part is empty takes the two fields behind it. */
  lemma NamesOfThree(a: string, b: string, c: string, rest: seq<string>)
    requires Third(a) == [""]
    ensures Names([a, b, c] + rest) == [b, c] + Names(rest)
  {
    assert ([a, b, c] + rest)[3..] == rest;
  }

  lemma {:induction false} NamesOfPrint(records: seq<Record>)
    requires forall r :: r in records ==> Valid(r)
    ensures Names(Split(Print(records), NUL)) == AllNamed(records)
  {
    if records == [] {
      assert Names([[]]) == [];
    } else {
      var r := records[0];
      assert r in records && Valid(r);
      NamesOfPrint(records[1..]);
      if r.File? {
        NamesOfFile(r, Print(records[1..]));
      } else {
        NamesOfRename(r, Print(records[1..]));
      }
    }
  }

  predicate Distinct(names: seq<string>) {
    forall i, j :: 0 <= i < j < |names| ==> names[i] != names[j]
  }

  lemma {:induction false} FreshExactly(seen: seq<string>, names: seq<string>, n: string)
    requires Distinct(seen)
    ensures Distinct(Fresh(seen, names)) && seen <= Fresh(seen, names)
    ensures n in Fresh(seen, names) <==> n in seen || (n in names && n != "")
    decreases |names|
  {
    if names != [] {
      var next := if names[0] == "" || names[0] in seen then seen else seen + [names[0]];
      FreshExactly(next, names[1..], n);
      assert names == [names[0]] + names[1..];
    }
  }

  lemma {:induction false} AllNamedExactly(records: seq<Record>, n: string)
    ensures n in AllNamed(records) <==> exists r :: r in records && n in Named(r)
  {
    if records != [] {
      AllNamedExactly(records[1..], n);
      assert records == [records[0]] + records[1..];
    }
  }

  lemma {:induction false} ValidNames(records: seq<Record>, n: string)
    requires (forall r :: r in records ==> Valid(r)) && n in AllNamed(records)
    ensures n != ""
  {
    AllNamedExactly(records, n);
  }

  /** The list is exactly the paths named in either direction, both sides of every rename that git lists
      in full, each once; tabs and line breaks in a path do not matter. */
  lemma ReadsWhatGitPrints(forward: seq<Record>, backward: seq<Record>, n: string)
    requires (forall r :: r in forward ==> Valid(r)) && (forall r :: r in backward ==> Valid(r))
    ensures var paths := Fresh(Fresh([], Names(Split(Print(forward), NUL))), Names(Split(Print(backward), NUL)));
            && Distinct(paths)
            && (n in paths <==> exists r :: r in forward + backward && n in Named(r))
  {
    NamesOfPrint(forward);
    NamesOfPrint(backward);
    FreshExactly([], AllNamed(forward), n);
    FreshExactly(Fresh([], AllNamed(forward)), AllNamed(backward), n);
    AllNamedExactly(forward, n);
    AllNamedExactly(backward, n);
    if n in AllNamed(forward) { ValidNames(forward, n); }
    if n in AllNamed(backward) { ValidNames(backward, n); }
    if r :| r in forward + backward && n in Named(r) {
      assert r in forward || r in backward;
    }
  }
}
