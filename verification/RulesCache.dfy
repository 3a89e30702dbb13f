/** The machine-global rules file as a derived cache of the running plugin's rules.

    A content is its bytes, and its sha256 is modelled by the bytes themselves (no two contents
    share a hash). How a version is read out of the frontmatter, and how a version text parses,
    are parameters: the proofs hold for every reader and every parser. */
module RulesCache {
  import opened Option
  import opened SemVer

  datatype Reader = Reader(version: string -> string, parse: string -> Option<Version>)

  /** One directory a plugin can be loaded from. `dir` is its directory name when it lies at
      `<home>/.claude/plugins/cache/<marketplace>/lets/<dir>`. */
  datatype Plugin = Plugin(rules: Option<string>, dir: Option<string>, name: string, manifest: string)

  datatype Key = Key(hash: string, version: string, source: string)

  datatype Disk = Disk(active: Option<string>, key: Option<Key>, baks: map<nat, string>, plugins: map<string, Plugin>)

  datatype Options = Options(root: string, inProject: bool, scopeUser: bool)

  datatype Outcome = Noop | Created | Written | KeptNewer | Skipped | Failed

  datatype Result = Result(outcome: Outcome, from: string, to: string, backup: Option<nat>)

  /** A write of one Sync. A crash can fall between any two; the replace and the key write are
      atomic (temporary file and rename). */
  datatype Write =
    | OpenBackup(n: nat)              // O_EXCL: the name was free
    | FillBackup(n: nat, data: string)
    | Replace(data: string)
    | SetKey(key: Key)

  /** Which operations of one Sync succeed, and after how many writes it crashes. */
  datatype Faults = Faults(readable: bool, mkdir: bool, backup: bool, replace: bool, setKey: bool, crashAfter: nat)

  const BACKUPS: nat := 100

  function Do(d: Disk, w: Write): Disk {
    match w
    case OpenBackup(n) => d.(baks := d.baks[n := ""])
    case FillBackup(n, data) => d.(baks := d.baks[n := data])
    case Replace(data) => d.(active := Some(data))
    case SetKey(k) => d.(key := Some(k))
  }

  function DoAll(d: Disk, ws: seq<Write>): Disk
    decreases |ws|
  {
    if ws == [] then d else DoAll(Do(d, ws[0]), ws[1..])
  }

  predicate HasPrefix(s: string, p: string) {
    |p| <= |s| && s[..|p|] == p
  }

  predicate ValidVer(r: Reader, v: string) {
    v != "" && r.parse(v).Some?
  }

  predicate Older(r: Reader, a: string, b: string) {
    ValidVer(r, a) && ValidVer(r, b) && Compare(r.parse(a).value, r.parse(b).value) < 0
  }

  /** `untrusted` answers "": the root is provably an installed LETS plugin whose manifest, install
      directory and rules agree on the version. */
  predicate Trusted(r: Reader, plugins: map<string, Plugin>, root: string, ver: string) {
    && ValidVer(r, ver) && root in plugins
    && var p := plugins[root];
       p.dir.Some? && p.name == "lets" && p.manifest == ver && (p.dir.value == ver || HasPrefix(p.dir.value, ver + "-"))
  }

  /** Byte-identical to the rules of an installed release of version `ver`. */
  predicate Pristine(r: Reader, plugins: map<string, Plugin>, data: string, ver: string) {
    ValidVer(r, ver) && exists p | p in plugins :: ReleaseOf(plugins[p], data, ver)
  }

  predicate ReleaseOf(p: Plugin, data: string, ver: string) {
    p.dir.Some? && HasPrefix(p.dir.value, ver) && p.rules == Some(data)
  }

  /** What a copy that exists and differs is worth: whether LETS provably wrote it, the version
      that gates its replacement, and the version a report names. */
  function Judge(r: Reader, d: Disk, data: string): (bool, string, string) {
    if d.key.Some? && d.key.value.hash == data then (true, d.key.value.version, d.key.value.version)
    else if Pristine(r, d.plugins, data, r.version(data)) then (true, r.version(data), r.version(data))
    else (false, if d.key.Some? then d.key.value.version else "", "")
  }

  function FirstFree(baks: map<nat, string>, n: nat): Option<nat>
    requires 1 <= n <= BACKUPS + 1
    decreases BACKUPS + 1 - n
  {
    if n > BACKUPS then None else if n in baks then FirstFree(baks, n + 1) else Some(n)
  }

  /** What one Sync under the lock answers and the writes it makes, in order, when it does not
      crash. */
  function SyncSpec(r: Reader, d: Disk, o: Options, f: Faults): (Result, seq<Write>) {
    if !f.readable then (Result(Failed, "", "", None), [])
    else if d.active == None && !(o.inProject && o.scopeUser) then (Result(Noop, "", "", None), [])
    else if o.root !in d.plugins || d.plugins[o.root].rules == None then (Result(Failed, "", "", None), [])
    else
      var src := d.plugins[o.root].rules.value;
      var ver := r.version(src);
      var key := Key(src, ver, o.root);
      if d.active == Some(src) then
        (Result(Noop, "", "", None),
         if d.key != Some(key) && Trusted(r, d.plugins, o.root, ver) && f.setKey then [SetKey(key)] else [])
      else if !Trusted(r, d.plugins, o.root, ver) then (Result(Skipped, "", "", None), [])
      else RewriteSpec(r, d, key, f)
  }

  /** The trusted plugin's rules differ from the active copy, or there is none. */
  function RewriteSpec(r: Reader, d: Disk, key: Key, f: Faults): (Result, seq<Write>) {
    if d.active == None then
      if f.mkdir && f.replace then (Result(Created, "", key.version, None), Record(key, f))
      else (Result(Failed, "", "", None), [])
    else
      var (pristine, gate, from) := Judge(r, d, d.active.value);
      var bak := FirstFree(d.baks, 1);
      if Older(r, key.version, gate) then (Result(KeptNewer, gate, gate, None), [])
      else if !f.mkdir || (!pristine && (bak == None || !f.backup)) then (Result(Failed, "", "", None), [])
      else
        var saved := if pristine then [] else [OpenBackup(bak.value), FillBackup(bak.value, d.active.value)];
        var name := if pristine then None else bak;
        if !f.replace then (Result(Failed, "", "", name), saved)
        else (Result(Written, from, key.version, name), saved + Record(key, f))
  }

  /** The writes that reach the disk: all of them, or a prefix when the Sync crashes. */
  function Landed(ws: seq<Write>, crashAfter: nat): seq<Write> {
    if crashAfter < |ws| then ws[..crashAfter] else ws
  }

  function SyncDisk(r: Reader, d: Disk, o: Options, f: Faults): Disk {
    DoAll(d, Landed(SyncSpec(r, d, o, f).1, f.crashAfter))
  }

  lemma {:induction false} DoAllAppend(d: Disk, a: seq<Write>, b: seq<Write>)
    ensures DoAll(d, a + b) == DoAll(DoAll(d, a), b)
    decreases |a|
  {
    if a == [] {
      assert a + b == b;
    } else {
      assert (a + b)[1..] == a[1..] + b;
      DoAllAppend(Do(d, a[0]), a[1..], b);
    }
  }

  lemma DoSnoc(d: Disk, ws: seq<Write>, w: Write)
    ensures DoAll(d, ws + [w]) == Do(DoAll(d, ws), w)
  {
    DoAllAppend(d, ws, [w]);
  }

  lemma {:induction false} FreeExactly(baks: map<nat, string>, n: nat)
    requires 1 <= n <= BACKUPS + 1
    ensures FirstFree(baks, n) == None <==> forall i :: n <= i <= BACKUPS ==> i in baks
    ensures FirstFree(baks, n).Some? ==>
              var free := FirstFree(baks, n).value;
              n <= free <= BACKUPS && free !in baks && forall i :: n <= i < free ==> i in baks
    decreases BACKUPS + 1 - n
  {
    if n <= BACKUPS && n in baks {
      FreeExactly(baks, n + 1);
    }
  }

  // ---------------------------------------------------------------------------------------
  // What a Sync answers and leaves, said over the disk it found
  // ---------------------------------------------------------------------------------------

  /** There is a copy to keep, or the session wants one. */
  predicate Wanted(d: Disk, o: Options) {
    d.active.Some? || (o.inProject && o.scopeUser)
  }

  predicate HasRules(d: Disk, o: Options) {
    o.root in d.plugins && d.plugins[o.root].rules.Some?
  }

  /** The key a Sync of `o` would record. */
  function KeyOf(r: Reader, d: Disk, o: Options): Key
    requires HasRules(d, o)
  {
    var src := d.plugins[o.root].rules.value;
    Key(src, r.version(src), o.root)
  }

  /** The root is an installed plugin, so it may record what it has. */
  predicate Installed(r: Reader, d: Disk, o: Options) {
    HasRules(d, o) && Trusted(r, d.plugins, o.root, KeyOf(r, d, o).version)
  }

  /** The decision is whether to replace: the root is installed, and its rules are not the active copy. */
  predicate Differs(r: Reader, d: Disk, o: Options) {
    Wanted(d, o) && Installed(r, d, o) && d.active != Some(KeyOf(r, d, o).hash)
  }

  predicate Recorded(d: Disk) {
    d.active.Some? && d.key.Some? && d.key.value.hash == d.active.value
  }

  /** LETS provably wrote the active copy: it is what the key names, or an installed release's. */
  predicate Ours(r: Reader, d: Disk) {
    Recorded(d) || (d.active.Some? && Pristine(r, d.plugins, d.active.value, r.version(d.active.value)))
  }

  /** The version that gates the replacement, when there is one: an unrecorded release copy is gated by its
      own, every other copy by what was recorded last. */
  ghost predicate GatedBy(r: Reader, d: Disk, ver: string) {
    if Ours(r, d) && !Recorded(d) then ver == r.version(d.active.value)
    else d.active.Some? && d.key.Some? && ver == d.key.value.version
  }

  ghost predicate NewerThere(r: Reader, d: Disk, o: Options)
    requires HasRules(d, o)
  {
    exists ver :: GatedBy(r, d, ver) && Older(r, KeyOf(r, d, o).version, ver)
  }

  /** The copy must be saved, and there is a name to save it under. */
  ghost predicate CanSave(d: Disk, f: Faults) {
    f.backup && exists n :: 1 <= n <= BACKUPS && n !in d.baks
  }

  ghost predicate CanWrite(r: Reader, d: Disk, f: Faults) {
    f.mkdir && f.replace && (d.active.Some? && !Ours(r, d) ==> CanSave(d, f))
  }

  lemma JudgeSaysOurs(r: Reader, d: Disk)
    requires d.active.Some?
    ensures var (pristine, gate, from) := Judge(r, d, d.active.value);
            && (pristine <==> Ours(r, d))
            && (if exists ver :: GatedBy(r, d, ver) then GatedBy(r, d, gate) else gate == "")
            && (forall ver :: GatedBy(r, d, ver) ==> ver == gate)
            && from == if pristine then gate else ""
  {
    var (pristine, gate, from) := Judge(r, d, d.active.value);
    if pristine || d.key.Some? {
      assert GatedBy(r, d, gate);
    }
  }

  lemma OlderThanTheGate(r: Reader, d: Disk, o: Options)
    requires d.active.Some? && HasRules(d, o)
    ensures var gate := Judge(r, d, d.active.value).1;
            && (Older(r, KeyOf(r, d, o).version, gate) <==> NewerThere(r, d, o))
            && (NewerThere(r, d, o) ==> GatedBy(r, d, gate))
  {
    JudgeSaysOurs(r, d);
    var gate := Judge(r, d, d.active.value).1;
    if Older(r, KeyOf(r, d, o).version, gate) {
      assert GatedBy(r, d, gate);
    }
  }

  /** Which outcome a Sync answers, each exactly when. */
  lemma OutcomeExactly(r: Reader, d: Disk, o: Options, f: Faults)
    ensures OutcomeIs(r, d, o, f, SyncSpec(r, d, o, f).0.outcome)
  {
    FreeExactly(d.baks, 1);
    if Differs(r, d, o) && d.active.Some? {
      JudgeSaysOurs(r, d);
      OlderThanTheGate(r, d, o);
    }
  }

  ghost predicate OutcomeIs(r: Reader, d: Disk, o: Options, f: Faults, a: Outcome) {
    && (a == Noop <==> f.readable && (!Wanted(d, o) || (HasRules(d, o) && d.active == Some(KeyOf(r, d, o).hash))))
    && (a == Skipped <==> f.readable && Wanted(d, o) && HasRules(d, o) && !Installed(r, d, o)
                          && d.active != Some(KeyOf(r, d, o).hash))
    && (a == KeptNewer <==> f.readable && Differs(r, d, o) && NewerThere(r, d, o))
    && (a == Created <==> f.readable && Differs(r, d, o) && d.active == None && CanWrite(r, d, f))
    && (a == Written <==> f.readable && Differs(r, d, o) && d.active.Some? && !NewerThere(r, d, o)
                          && CanWrite(r, d, f))
    && (a == Failed <==>
          || !f.readable || (Wanted(d, o) && !HasRules(d, o))
          || (Differs(r, d, o) && !NewerThere(r, d, o) && !CanWrite(r, d, f)))
  }

  /** The copy is saved before anything replaces it. */
  ghost predicate Saves(r: Reader, d: Disk, o: Options, f: Faults) {
    && f.readable && Differs(r, d, o) && !NewerThere(r, d, o)
    && d.active.Some? && !Ours(r, d) && f.mkdir && CanSave(d, f)
  }

  /** What the answer names: the versions it came from and went to, and the backup - the first free name. */
  ghost predicate ReportIs(r: Reader, d: Disk, o: Options, f: Faults, res: Result) {
    && (match res.outcome
        case KeptNewer =>
          HasRules(d, o) && res.to == res.from && GatedBy(r, d, res.from) && Older(r, KeyOf(r, d, o).version, res.from)
        case Created => HasRules(d, o) && res.from == "" && res.to == KeyOf(r, d, o).version
        case Written =>
          && HasRules(d, o) && res.to == KeyOf(r, d, o).version
          && if Ours(r, d) then GatedBy(r, d, res.from) else res.from == ""
        case _ => res.from == "" && res.to == "")
    && (res.backup.Some? <==> Saves(r, d, o, f))
    && (res.backup.Some? ==>
          var n := res.backup.value;
          1 <= n <= BACKUPS && n !in d.baks && forall i :: 1 <= i < n ==> i in d.baks)
  }

  lemma ReplaceReports(r: Reader, d: Disk, o: Options, f: Faults)
    requires f.readable && Differs(r, d, o) && d.active.Some?
    ensures ReportIs(r, d, o, f, RewriteSpec(r, d, KeyOf(r, d, o), f).0)
  {
    FreeExactly(d.baks, 1);
    JudgeSaysOurs(r, d);
    OlderThanTheGate(r, d, o);
  }

  lemma ReportExactly(r: Reader, d: Disk, o: Options, f: Faults)
    ensures ReportIs(r, d, o, f, SyncSpec(r, d, o, f).0)
  {
    if f.readable && Differs(r, d, o) && d.active.Some? {
      ReplaceReports(r, d, o, f);
      assert SyncSpec(r, d, o, f) == RewriteSpec(r, d, KeyOf(r, d, o), f);
    }
  }

  /** The disk after a Sync that answered `res`: the old copy is in the backup named, the new content is there
      exactly if it was created or written, and whenever an installed plugin leaves its own rules active the
      key names them. Nothing else changed. */
  predicate LeavesIs(r: Reader, d: Disk, o: Options, f: Faults, res: Result, d': Disk) {
    && d'.plugins == d.plugins
    && d'.baks == (if res.backup.Some? && d.active.Some? then d.baks[res.backup.value := d.active.value] else d.baks)
    && d'.active == (if (res.outcome == Created || res.outcome == Written) && HasRules(d, o)
                     then Some(KeyOf(r, d, o).hash) else d.active)
    && d'.key == (if f.readable && f.setKey && Installed(r, d, o) && d'.active == Some(KeyOf(r, d, o).hash)
                  then Some(KeyOf(r, d, o)) else d.key)
  }

  lemma DoTwo(d: Disk, a: Write, b: Write)
    ensures DoAll(d, [a, b]) == Do(Do(d, a), b)
  {
    assert [a, b][1..] == [b] && [b][1..] == [];
    assert DoAll(d, [a, b]) == DoAll(Do(d, a), [b]);
  }

  lemma DoRecord(d: Disk, k: Key, f: Faults)
    ensures DoAll(d, Record(k, f)) == d.(active := Some(k.hash), key := if f.setKey then Some(k) else d.key)
  {
    if f.setKey {
      assert Record(k, f) == [Replace(k.hash), SetKey(k)];
      DoTwo(d, Replace(k.hash), SetKey(k));
    } else {
      assert Record(k, f) == [Replace(k.hash)];
    }
  }

  lemma DoSave(d: Disk, n: nat, copy: string)
    ensures DoAll(d, [OpenBackup(n), FillBackup(n, copy)]) == d.(baks := d.baks[n := copy])
  {
    DoTwo(d, OpenBackup(n), FillBackup(n, copy));
    assert d.baks[n := ""][n := copy] == d.baks[n := copy];
  }

  lemma RewriteLeaves(r: Reader, d: Disk, o: Options, f: Faults)
    requires f.readable && Differs(r, d, o)
    ensures var (res, ws) := RewriteSpec(r, d, KeyOf(r, d, o), f); LeavesIs(r, d, o, f, res, DoAll(d, ws))
  {
    var k := KeyOf(r, d, o);
    var (res, ws) := RewriteSpec(r, d, k, f);
    if res.backup == None {
      if ws != [] {
        assert [] + Record(k, f) == Record(k, f);
        DoRecord(d, k, f);
      }
    } else {
      var saved := [OpenBackup(res.backup.value), FillBackup(res.backup.value, d.active.value)];
      DoSave(d, res.backup.value, d.active.value);
      if ws != saved {
        DoAllAppend(d, saved, Record(k, f));
        DoRecord(DoAll(d, saved), k, f);
      }
    }
  }

  lemma LeavesExactly(r: Reader, d: Disk, o: Options, f: Faults)
    ensures var (res, ws) := SyncSpec(r, d, o, f); LeavesIs(r, d, o, f, res, DoAll(d, ws))
  {
    if f.readable && Differs(r, d, o) {
      RewriteLeaves(r, d, o, f);
    } else if f.readable && HasRules(d, o) && d.active == Some(KeyOf(r, d, o).hash) {
      assert DoAll(d, [SetKey(KeyOf(r, d, o))]) == Do(d, SetKey(KeyOf(r, d, o)));
    }
  }

  /** The cache on disk, as Sync rewrites it. */
  class Cache {
    var active: Option<string>
    var key: Option<Key>
    var baks: map<nat, string>
    var plugins: map<string, Plugin>
    var done: nat                  // writes of the present Sync that landed
    ghost var start: Disk          // the disk when it began
    ghost var log: seq<Write>      // what it wrote since

    ghost function OnDisk(): Disk
      reads this
    {
      Disk(active, key, baks, plugins)
    }

    ghost predicate Valid()
      reads this
    {
      OnDisk() == DoAll(start, log) && |log| == done
    }

    constructor (d: Disk)
      ensures OnDisk() == d
    {
      active, key, baks, plugins := d.active, d.key, d.baks, d.plugins;
      done, start, log := 0, d, [];
    }

    /** One write, unless the Sync crashed before it. */
    method Put(w: Write, f: Faults) returns (alive: bool)
      requires Valid() && done <= f.crashAfter
      modifies this`active, this`key, this`baks, this`done, this`log
      ensures Valid() && done <= f.crashAfter && alive == (old(done) < f.crashAfter)
      ensures log == if alive then old(log) + [w] else old(log)
      ensures OnDisk() == if alive then Do(old(OnDisk()), w) else old(OnDisk())
    {
      alive := done < f.crashAfter;
      if alive {
        DoSnoc(start, log, w);
        match w {
          case OpenBackup(n) => baks := baks[n := ""];
          case FillBackup(n, data) => baks := baks[n := data];
          case Replace(data) => active := Some(data);
          case SetKey(k) => key := Some(k);
        }
        done := done + 1;
        log := log + [w];
      }
    }

    /** `isPristine`: walk the installed releases of that version. */
    method IsPristine(r: Reader, data: string, ver: string) returns (ok: bool)
      ensures ok == Pristine(r, plugins, data, ver)
      ensures ok <==> && ver != "" && r.parse(ver).Some?
                      && exists p :: p in plugins && plugins[p].dir.Some? && plugins[p].rules == Some(data)
                                     && |ver| <= |plugins[p].dir.value| && plugins[p].dir.value[..|ver|] == ver
    {
      if ver == "" || r.parse(ver).None? { return false; }
      var matches := plugins.Keys;
      while matches != {}
        invariant matches <= plugins.Keys
        invariant forall p :: p in plugins && p !in matches ==> !ReleaseOf(plugins[p], data, ver)
        decreases |matches|
      {
        var p :| p in matches;
        matches := matches - {p};
        var x := plugins[p];
        if x.dir.Some? && |ver| <= |x.dir.value| && x.dir.value[..|ver|] == ver && x.rules == Some(data) {
          return true;
        }
      }
      return false;
    }

    /** The loop of `backup`: the first free name of `.bak`, `.bak-2`, ... `.bak-100`. */
    method FreeBackup() returns (n: Option<nat>)
      ensures n == FirstFree(baks, 1)
      ensures n.Some? ==> 1 <= n.value <= BACKUPS && n.value !in baks
      ensures n == None ==> forall i :: 1 <= i <= BACKUPS ==> i in baks
    {
      var i: nat := 1;
      while i <= BACKUPS
        invariant 1 <= i <= BACKUPS + 1
        invariant forall j :: 1 <= j < i ==> j in baks
        invariant FirstFree(baks, 1) == FirstFree(baks, i)
      {
        if i !in baks { return Some(i); }
        i := i + 1;
      }
      return None;
    }

    /** `backup`: copy the active content to the first free name; the active file stays. */
    method SaveCopy(data: string, f: Faults) returns (name: Option<nat>, crashed: bool)
      requires Valid() && done <= f.crashAfter
      modifies this`active, this`key, this`baks, this`done, this`log
      ensures Valid() && done <= f.crashAfter
      ensures name == if f.backup then FirstFree(old(baks), 1) else None
      ensures active == old(active) && key == old(key)
      ensures name == None ==> !crashed && log == old(log)
      ensures name.Some? ==> Extended(old(log), [OpenBackup(name.value), FillBackup(name.value, data)], f, crashed)
    {
      name := FreeBackup();
      if name == None || !f.backup { return None, false; }
      var alive := Put(OpenBackup(name.value), f);
      if !alive { return name, true; }
      alive := Put(FillBackup(name.value, data), f);
      crashed := !alive;
    }

    /** The atomic replace and then the best-effort key. */
    method ReplaceAndRecord(k: Key, f: Faults) returns (crashed: bool)
      requires Valid() && done <= f.crashAfter
      modifies this`active, this`key, this`baks, this`done, this`log
      ensures Valid() && done <= f.crashAfter
      ensures Extended(old(log), Record(k, f), f, crashed)
    {
      var alive := Put(Replace(k.hash), f);
      if !alive { return true; }
      if f.setKey {
        alive := Put(SetKey(k), f);
        crashed := !alive;
      } else {
        crashed := false;
      }
    }

    /** `ws` went to the log, up to the crash. */
    ghost predicate Extended(before: seq<Write>, ws: seq<Write>, f: Faults, crashed: bool)
      reads this
    {
      && (!crashed ==> log == before + ws)
      && (crashed ==> log <= before + ws && |log| == f.crashAfter < |before + ws|)
    }

    /** What a copy that exists and differs is worth. */
    method JudgeCopy(r: Reader, data: string) returns (pristine: bool, gate: string, from: string)
      ensures (pristine, gate, from) == Judge(r, OnDisk(), data)
      ensures pristine ==> gate == from
      ensures pristine && !(key.Some? && key.value.hash == data) ==>
                gate == r.version(data) && exists p :: p in plugins && ReleaseOf(plugins[p], data, gate)
      ensures !pristine ==> from == "" && gate == if key.Some? then key.value.version else ""
      ensures !pristine ==> !(key.Some? && key.value.hash == data) && !Pristine(r, plugins, data, r.version(data))
    {
      if key.Some? && key.value.hash == data {
        return true, key.value.version, key.value.version;
      }
      var ver := r.version(data);
      pristine := IsPristine(r, data, ver);
      if pristine { return true, ver, ver; }
      gate, from := if key.Some? then key.value.version else "", "";
    }

    /** The second half of `syncLocked`: gate, backup, replace, key. */
    method Rewrite(r: Reader, k: Key, f: Faults) returns (res: Result, crashed: bool)
      requires Valid() && log == [] && OnDisk() == start
      modifies this`active, this`key, this`baks, this`done, this`log
      ensures Valid() && log == Landed(RewriteSpec(r, old(OnDisk()), k, f).1, f.crashAfter)
      ensures !crashed ==> res == RewriteSpec(r, old(OnDisk()), k, f).0
      ensures crashed <==> f.crashAfter < |RewriteSpec(r, old(OnDisk()), k, f).1|
    {
      ghost var ws := RewriteSpec(r, OnDisk(), k, f).1;
      if active == None {
        if !f.mkdir || !f.replace { return Result(Failed, "", "", None), false; }
        crashed := ReplaceAndRecord(k, f);
        assert ws == [] + Record(k, f);
        CrashIsPrefix(log, ws, f);
        return Result(Created, "", k.version, None), crashed;
      }
      var pristine, gate, from := JudgeCopy(r, active.value);
      if Older(r, k.version, gate) { return Result(KeptNewer, gate, gate, None), false; }
      if !f.mkdir { return Result(Failed, "", "", None), false; }
      var name := None;
      ghost var saved := [];
      if !pristine {
        name, crashed := SaveCopy(active.value, f);
        if name == None { return Result(Failed, "", "", None), false; }
        saved := [OpenBackup(name.value), FillBackup(name.value, active.value)];
        assert [] + saved == saved;
        assert ws == if f.replace then saved + Record(k, f) else saved;
        if crashed {
          CrashIsPrefix(log, ws, f);
          return Result(Noop, "", "", None), true;
        }
      }
      assert log == saved;
      if !f.replace { return Result(Failed, "", "", name), false; }
      assert ws == saved + Record(k, f);
      crashed := ReplaceAndRecord(k, f);
      CrashIsPrefix(log, ws, f);
      return Result(Written, from, k.version, name), crashed;
    }

    /** `syncLocked`, writing. */
    method SyncLocked(r: Reader, o: Options, f: Faults) returns (res: Result, crashed: bool)
      modifies this
      ensures OnDisk() == SyncDisk(r, old(OnDisk()), o, f)
      ensures !crashed ==> res == SyncSpec(r, old(OnDisk()), o, f).0
      ensures crashed <==> f.crashAfter < |SyncSpec(r, old(OnDisk()), o, f).1|
    {
      done, start, log := 0, OnDisk(), [];
      res, crashed := Result(Noop, "", "", None), false;
      if !f.readable { return Result(Failed, "", "", None), false; }
      if active == None && !(o.inProject && o.scopeUser) { return; }
      if o.root !in plugins || plugins[o.root].rules == None { return Result(Failed, "", "", None), false; }
      var src := plugins[o.root].rules.value;
      var k := Key(src, r.version(src), o.root);
      if active == Some(src) {
        if key != Some(k) && Trusted(r, plugins, o.root, k.version) && f.setKey {
          var alive := Put(SetKey(k), f);
          crashed := !alive;
          CrashIsPrefix(log, [SetKey(k)], f);
        }
        return;
      }
      if !Trusted(r, plugins, o.root, k.version) { return Result(Skipped, "", "", None), false; }
      res, crashed := Rewrite(r, k, f);
    }

    /** `Sync` once it holds the lock. The answer and the disk are said over what it found: which outcome,
        exactly when; which versions and backup it names; and what is on disk when it did not crash. A copy
        that is already an installed plugin's rules gets its key, and nothing else is touched. */
    method Sync(r: Reader, o: Options, f: Faults) returns (res: Result, crashed: bool)
      modifies this
      ensures OnDisk() == SyncDisk(r, old(OnDisk()), o, f)
      ensures !crashed ==> res == SyncSpec(r, old(OnDisk()), o, f).0
      ensures crashed <==> f.crashAfter < |SyncSpec(r, old(OnDisk()), o, f).1|
      ensures !crashed ==> OutcomeIs(r, old(OnDisk()), o, f, res.outcome)
      ensures !crashed ==> ReportIs(r, old(OnDisk()), o, f, res)
      ensures !crashed ==> LeavesIs(r, old(OnDisk()), o, f, res, OnDisk())
      ensures !crashed && res.outcome in {Created, Written, Skipped} ==>
                o.root in old(plugins) && old(plugins)[o.root].rules.Some?
      ensures !crashed && res.outcome in {Created, Written, Skipped} ==>
                (res.outcome != Skipped <==>
                    var p := old(plugins)[o.root];
                    var ver := r.version(p.rules.value);
                    && ver != "" && r.parse(ver).Some? && p.name == "lets" && p.manifest == ver && p.dir.Some?
                    && (p.dir.value == ver || (|ver| < |p.dir.value| && p.dir.value[..|ver| + 1] == ver + ['-'])))
      ensures var d := old(OnDisk());
              !crashed && f.readable && f.setKey && Installed(r, d, o) && d.active == d.plugins[o.root].rules ==>
                OnDisk() == d.(key := Some(Key(d.active.value, r.version(d.active.value), o.root)))
      ensures var d := old(OnDisk());
              !crashed && f.setKey && Installed(r, d, o) && active.Some?
              && (res.outcome == Created || res.outcome == Written || res.outcome == Noop) ==>
                active == d.plugins[o.root].rules
                && key == Some(Key(active.value, r.version(active.value), o.root))
    {
      ghost var d := OnDisk();
      res, crashed := SyncLocked(r, o, f);
      OutcomeExactly(r, d, o, f);
      ReportExactly(r, d, o, f);
      LeavesExactly(r, d, o, f);
    }
  }

  function Record(k: Key, f: Faults): seq<Write> {
    [Replace(k.hash)] + if f.setKey then [SetKey(k)] else []
  }

  lemma CrashIsPrefix(log: seq<Write>, ws: seq<Write>, f: Faults)
    requires log <= ws && (|log| < |ws| ==> |log| == f.crashAfter) && |log| <= f.crashAfter
    ensures log == Landed(ws, f.crashAfter)
  {
  }
}
