/** What the rules cache keeps over whole runs: any mix of plugin versions, outside edits,
    installs and removals, failing writes and crashes. */
module CacheRuns {
  import opened Option
  import opened SemVer
  import opened RulesCache

  /** One thing that happens to the disk between two looks at it. Outsiders edit the active file
      and the plugin directories; the key and the backups are Sync's own. */
  datatype Event =
    | Sync(o: Options, f: Faults)
    | Edit(active: Option<string>)
    | Plugins(plugins: map<string, Plugin>)

  /** `once` are the contents an installed release ever held under its own version, `trusted` those a trusted
      plugin ever held, `lost` the contents a Sync replaced. */
  datatype State = State(d: Disk, once: set<string>, trusted: set<string>, lost: set<string>)

  predicate IsRelease(r: Reader, p: Plugin) {
    p.rules.Some? && ValidVer(r, r.version(p.rules.value)) && ReleaseOf(p, p.rules.value, r.version(p.rules.value))
  }

  function ReleaseContents(r: Reader, plugins: map<string, Plugin>): set<string> {
    set p | p in plugins && IsRelease(r, plugins[p]) :: plugins[p].rules.value
  }

  predicate IsTrusted(r: Reader, plugins: map<string, Plugin>, root: string) {
    root in plugins && plugins[root].rules.Some? && Trusted(r, plugins, root, r.version(plugins[root].rules.value))
  }

  function TrustedContents(r: Reader, plugins: map<string, Plugin>): set<string> {
    set p | p in plugins && IsTrusted(r, plugins, p) :: plugins[p].rules.value
  }

  function Lost(d: Disk, d': Disk): set<string> {
    if d.active.Some? && d'.active != d.active then {d.active.value} else {}
  }

  function Happen(r: Reader, s: State, e: Event): State {
    match e
    case Sync(o, f) =>
      var d' := SyncDisk(r, s.d, o, f);
      s.(d := d', lost := s.lost + Lost(s.d, d'))
    case Edit(active) => s.(d := s.d.(active := active))
    case Plugins(plugins) =>
      s.(d := s.d.(plugins := plugins), once := s.once + ReleaseContents(r, plugins),
         trusted := s.trusted + TrustedContents(r, plugins))
  }

  function HappenAll(r: Reader, s: State, es: seq<Event>): State
    decreases |es|
  {
    if es == [] then s else HappenAll(r, Happen(r, s, es[0]), es[1..])
  }

  predicate KeyHonest(r: Reader, d: Disk, trusted: set<string>) {
    d.key.Some? ==>
      && d.key.value.hash in trusted
      && d.key.value.version == r.version(d.key.value.hash) && ValidVer(r, d.key.value.version)
  }

  predicate Inv(r: Reader, s: State) {
    && ReleaseContents(r, s.d.plugins) <= s.once && TrustedContents(r, s.d.plugins) <= s.trusted <= s.once
    && KeyHonest(r, s.d, s.trusted)
    && forall c :: c in s.lost ==> c in s.once || c in s.d.baks.Values
  }

  // ---------------------------------------------------------------------------------------
  // What one Sync can do to the disk, crashes and failed writes included
  // ---------------------------------------------------------------------------------------

  /** A step `w` of a Sync that began at `d` and means to install `k`. */
  predicate Within(d: Disk, k: Key, w: Write) {
    match w
    case OpenBackup(n) => n !in d.baks
    case FillBackup(n, data) => n !in d.baks
    case Replace(data) => data == k.hash
    case SetKey(x) => x == k
  }

  lemma {:induction false} WritesStayWithin(d: Disk, e: Disk, k: Key, ws: seq<Write>)
    requires forall w :: w in ws ==> Within(d, k, w)
    requires forall n :: n in d.baks ==> n in e.baks && e.baks[n] == d.baks[n]
    ensures var e' := DoAll(e, ws);
            && e'.plugins == e.plugins
            && (e'.active == e.active || (e'.active == Some(k.hash) && Replace(k.hash) in ws))
            && (e'.key == e.key || (e'.key == Some(k) && SetKey(k) in ws))
            && (forall n :: n in d.baks ==> n in e'.baks && e'.baks[n] == d.baks[n])
    decreases |ws|
  {
    if ws != [] {
      assert Within(d, k, ws[0]);
      WritesStayWithin(d, Do(e, ws[0]), k, ws[1..]);
    }
  }

  lemma {:induction false} BackupStays(e: Disk, n: nat, ws: seq<Write>)
    requires n in e.baks && forall w :: w in ws ==> w.Replace? || w.SetKey?
    ensures n in DoAll(e, ws).baks && DoAll(e, ws).baks[n] == e.baks[n]
    decreases |ws|
  {
    if ws != [] {
      assert ws[0] in ws;
      BackupStays(Do(e, ws[0]), n, ws[1..]);
    }
  }

  /** Everything one Sync can do: nothing but install the content of a trusted root, never over a
      newer version, and never over a content that is neither LETS's own nor saved first. */
  predicate Effect(r: Reader, d: Disk, o: Options, d': Disk) {
    && d'.plugins == d.plugins
    && (forall n :: n in d.baks ==> n in d'.baks && d'.baks[n] == d.baks[n])
    && (d'.active != d.active || d'.key != d.key ==>
          && o.root in d.plugins && d.plugins[o.root].rules.Some?
          && Trusted(r, d.plugins, o.root, KeyOf(r, d, o).version)
          && (d'.active != d.active ==> d'.active == Some(KeyOf(r, d, o).hash))
          && (d'.key != d.key ==> d'.key == Some(KeyOf(r, d, o)) && d'.active == Some(KeyOf(r, d, o).hash)))
    && (d'.active != d.active && d.active.Some? ==>
          var (pristine, gate, _) := Judge(r, d, d.active.value);
          && !Older(r, KeyOf(r, d, o).version, gate)
          && (pristine || d.active.value in d'.baks.Values))
  }

  lemma SyncEffect(r: Reader, d: Disk, o: Options, f: Faults)
    ensures Effect(r, d, o, SyncDisk(r, d, o, f))
  {
    var ws := SyncSpec(r, d, o, f).1;
    if ws == [] {
      assert Landed(ws, f.crashAfter) == [];
    } else {
      var k := KeyOf(r, d, o);
      var landed := Landed(ws, f.crashAfter);
      FreeExactly(d.baks, 1);
      assert forall w :: w in landed ==> w in ws;
      assert forall w :: w in ws ==> Within(d, k, w);
      WritesStayWithin(d, d, k, landed);
      if d.active != Some(k.hash) {
        RewriteEffect(r, d, k, f);
      }
    }
  }

  /** The backup writes of a rewrite, when it makes one. */
  function SavedWrites(r: Reader, d: Disk, k: Key, f: Faults): seq<Write> {
    if d.active.Some? && !Judge(r, d, d.active.value).0 && |RewriteSpec(r, d, k, f).1| >= 2
    then RewriteSpec(r, d, k, f).1[..2] else []
  }

  lemma RewriteShape(r: Reader, d: Disk, k: Key, f: Faults)
    ensures var ws, saved := RewriteSpec(r, d, k, f).1, SavedWrites(r, d, k, f);
            && (ws == [] || ws == saved || ws == saved + Record(k, f))
            && (saved != [] ==> var n := FirstFree(d.baks, 1);
                  n.Some? && d.active.Some? && saved == [OpenBackup(n.value), FillBackup(n.value, d.active.value)])
            && (ws != [] && d.active.Some? ==>
                  !Older(r, k.version, Judge(r, d, d.active.value).1) &&
                  (Judge(r, d, d.active.value).0 <==> saved == []))
  {
    var ws := RewriteSpec(r, d, k, f).1;
    var rec := Record(k, f);
    assert [] + rec == rec;
    if ws != [] && d.active.Some? && !Judge(r, d, d.active.value).0 {
      var n := FirstFree(d.baks, 1).value;
      var saved := [OpenBackup(n), FillBackup(n, d.active.value)];
      assert (saved + rec)[..2] == saved;
    }
  }

  /** What a prefix of a rewrite has done: the copy is untouched, or replaced after its backup. */
  lemma PrefixOfRewrite(saved: seq<Write>, rec: seq<Write>, landed: seq<Write>)
    requires landed <= saved + rec && |landed| > |saved|
    ensures landed == saved + landed[|saved|..] && landed[|saved|..] <= rec
  {
  }

  lemma SavedIsThere(d: Disk, n: nat, copy: string)
    ensures var e := DoAll(d, [OpenBackup(n), FillBackup(n, copy)]); n in e.baks && e.baks[n] == copy
  {
    var saved := [OpenBackup(n), FillBackup(n, copy)];
    assert saved[1..] == [FillBackup(n, copy)] && saved[1..][1..] == [];
    assert DoAll(d, saved) == DoAll(Do(d, OpenBackup(n)), saved[1..]);
  }

  lemma RewriteEffect(r: Reader, d: Disk, k: Key, f: Faults)
    requires d.active != Some(k.hash)
    ensures var d' := DoAll(d, Landed(RewriteSpec(r, d, k, f).1, f.crashAfter));
            && (d'.key != d.key ==> d'.active == Some(k.hash))
            && (d'.active != d.active && d.active.Some? ==>
                  !Older(r, k.version, Judge(r, d, d.active.value).1) &&
                  (Judge(r, d, d.active.value).0 || d.active.value in d'.baks.Values))
  {
    var saved := SavedWrites(r, d, k, f);
    var landed := Landed(RewriteSpec(r, d, k, f).1, f.crashAfter);
    RewriteShape(r, d, k, f);
    if |landed| <= |saved| {
      assert landed == saved[..|landed|];
      NoRecord(d, landed);
    } else {
      PrefixOfRewrite(saved, Record(k, f), landed);
      var rest := landed[|saved|..];
      assert rest == [Replace(k.hash)] || rest == [Replace(k.hash), SetKey(k)];
      NoRecord(d, saved);
      DoAllAppend(d, saved, rest);
      RecordEffect(DoAll(d, saved), k, rest);
      if saved != [] {
        var n := FirstFree(d.baks, 1).value;
        SavedIsThere(d, n, d.active.value);
        BackupStays(DoAll(d, saved), n, rest);
        assert n in DoAll(DoAll(d, saved), rest).baks.Keys;
      }
    }
  }

  lemma {:induction false} NoRecord(d: Disk, ws: seq<Write>)
    requires forall w :: w in ws ==> w.OpenBackup? || w.FillBackup?
    ensures DoAll(d, ws).active == d.active && DoAll(d, ws).key == d.key
    decreases |ws|
  {
    if ws != [] {
      assert ws[0] in ws;
      NoRecord(Do(d, ws[0]), ws[1..]);
    }
  }

  lemma RecordEffect(e: Disk, k: Key, rest: seq<Write>)
    requires rest == [Replace(k.hash)] || rest == [Replace(k.hash), SetKey(k)]
    ensures DoAll(e, rest).active == Some(k.hash)
  {
    assert DoAll(e, rest) == DoAll(Do(e, rest[0]), rest[1..]);
    if |rest| == 2 {
      assert rest[1..] == [SetKey(k)] && rest[1..][1..] == [];
    }
  }

  // ---------------------------------------------------------------------------------------
  // No hand edit is lost
  // ---------------------------------------------------------------------------------------

  lemma ReleaseIsOnce(r: Reader, plugins: map<string, Plugin>, data: string, ver: string)
    requires Pristine(r, plugins, data, ver) && ver == r.version(data)
    ensures data in ReleaseContents(r, plugins)
  {
    var p :| p in plugins && ReleaseOf(plugins[p], data, ver);
    assert plugins[p].rules.value == data && IsRelease(r, plugins[p]);
  }

  lemma TrustedIsRelease(r: Reader, plugins: map<string, Plugin>)
    ensures TrustedContents(r, plugins) <= ReleaseContents(r, plugins)
  {
    forall c | c in TrustedContents(r, plugins)
      ensures c in ReleaseContents(r, plugins)
    {
      var p :| p in plugins && IsTrusted(r, plugins, p) && plugins[p].rules.value == c;
      assert IsRelease(r, plugins[p]);
    }
  }

  lemma EventKeepsInv(r: Reader, s: State, e: Event)
    requires Inv(r, s)
    ensures var s' := Happen(r, s, e);
            && Inv(r, s') && s.lost <= s'.lost && s.once <= s'.once && s.trusted <= s'.trusted
            && forall n :: n in s.d.baks ==> n in s'.d.baks && s'.d.baks[n] == s.d.baks[n]
  {
    var s' := Happen(r, s, e);
    TrustedIsRelease(r, s'.d.plugins);
    if e.Sync? {
      SyncEffect(r, s.d, e.o, e.f);
      assert Effect(r, s.d, e.o, s'.d);
      if s'.d.key != s.d.key {
        assert IsTrusted(r, s.d.plugins, e.o.root);
        assert KeyOf(r, s.d, e.o).hash in TrustedContents(r, s.d.plugins);
      }
      forall c | c in s'.lost
        ensures c in s'.once || c in s'.d.baks.Values
      {
        if c in s.lost {
          if c !in s.once {
            var n :| n in s.d.baks && s.d.baks[n] == c;
            assert n in s'.d.baks.Keys;
          }
        } else {
          LostIsSafe(r, s, e);
        }
      }
    }
  }

  /** What the judgement of a copy proves over any run: a copy taken for LETS's own is the content of some
      installed release, then or before, and is gated by its own version; a hand edit that no release ever
      held is never taken for one, and is gated by what was installed last. */
  lemma JudgeIsProof(r: Reader, s: State, c: string)
    requires Inv(r, s)
    ensures var (pristine, gate, from) := Judge(r, s.d, c);
            && (pristine ==> c in s.once && ValidVer(r, r.version(c)) && gate == from == r.version(c))
            && (!pristine ==> gate == if s.d.key.Some? then r.version(s.d.key.value.hash) else "")
            && (c !in s.once ==> !pristine)
  {
    if Judge(r, s.d, c).0 && !(s.d.key.Some? && s.d.key.value.hash == c) {
      ReleaseIsOnce(r, s.d.plugins, c, r.version(c));
    }
  }

  lemma LostIsSafe(r: Reader, s: State, e: Event)
    requires Inv(r, s) && e.Sync?
    ensures var d' := SyncDisk(r, s.d, e.o, e.f); forall c :: c in Lost(s.d, d') ==> c in s.once || c in d'.baks.Values
  {
    var d' := SyncDisk(r, s.d, e.o, e.f);
    SyncEffect(r, s.d, e.o, e.f);
    assert Effect(r, s.d, e.o, d');
    if d'.active != s.d.active && s.d.active.Some? {
      JudgeIsProof(r, s, s.d.active.value);
    }
  }

  lemma {:induction false} RunKeepsInv(r: Reader, s: State, es: seq<Event>)
    requires Inv(r, s)
    ensures var s' := HappenAll(r, s, es);
            && Inv(r, s') && s.lost <= s'.lost
            && forall n :: n in s.d.baks ==> n in s'.d.baks && s'.d.baks[n] == s.d.baks[n]
    decreases |es|
  {
    if es != [] {
      EventKeepsInv(r, s, es[0]);
      RunKeepsInv(r, Happen(r, s, es[0]), es[1..]);
    }
  }

  /** A machine before its first Sync: whatever file lies there, no key and no history. */
  predicate Init(r: Reader, s: State) {
    && s.d.key == None && s.lost == {}
    && s.once == ReleaseContents(r, s.d.plugins) && s.trusted == TrustedContents(r, s.d.plugins)
  }

  /** No hand edit is lost: over any run of Syncs by any plugins, outside edits, installs, removals,
      failing writes and crashes, every content a Sync replaced was once an installed release's of its own
      version or is in a backup when the run ends; and a backup, once there, is never overwritten. The key
      names content that a trusted plugin held, and its version. */
  lemma NoEditLost(r: Reader, s: State, es: seq<Event>, more: seq<Event>)
    requires Init(r, s)
    ensures var mid := HappenAll(r, s, es);
            var end := HappenAll(r, mid, more);
            && (forall c :: c in mid.lost ==> c in end.once || c in end.d.baks.Values)
            && (forall n :: n in mid.d.baks ==> n in end.d.baks && end.d.baks[n] == mid.d.baks[n])
            && (end.d.key.Some? ==>
                  end.d.key.value.hash in end.trusted && end.d.key.value.version == r.version(end.d.key.value.hash))
  {
    TrustedIsRelease(r, s.d.plugins);
    RunKeepsInv(r, s, es);
    RunKeepsInv(r, HappenAll(r, s, es), more);
  }

  // ---------------------------------------------------------------------------------------
  // Forward only
  // ---------------------------------------------------------------------------------------

  /** The active copy, when there is one, is LETS's own: the recorded content or an installed
      release's. */
  predicate Settled(r: Reader, d: Disk) {
    d.active.Some? ==>
      var c := d.active.value;
      ValidVer(r, r.version(c)) && (Pristine(r, d.plugins, c, r.version(c)) || (d.key.Some? && d.key.value.hash == c))
  }

  predicate NotOlder(r: Reader, a: string, b: string) {
    ValidVer(r, a) && ValidVer(r, b) && Compare(r.parse(a).value, r.parse(b).value) >= 0
  }

  lemma NotOlderTransitive(r: Reader, a: string, b: string, c: string)
    requires NotOlder(r, a, b) && NotOlder(r, b, c)
    ensures NotOlder(r, a, c)
  {
    var x, y, z := r.parse(a).value, r.parse(b).value, r.parse(c).value;
    PrecedenceOrder(x, y, z);
    PrecedenceOrder(y, z, x);
    PrecedenceOrder(z, y, x);
    PrecedenceOrder(x, z, y);
  }

  /** No outside edit of the active file, and no plugin change that leaves it without proof of origin. */
  predicate Calm(r: Reader, s: State, e: Event) {
    match e
    case Sync(_, _) => true
    case Edit(_) => false
    case Plugins(plugins) => Settled(r, s.d) ==> Settled(r, s.d.(plugins := plugins))
  }

  predicate CalmRun(r: Reader, s: State, es: seq<Event>)
    decreases |es|
  {
    es != [] ==> Calm(r, s, es[0]) && CalmRun(r, Happen(r, s, es[0]), es[1..])
  }

  /** The active copy never goes away and never goes back. */
  predicate Forward(r: Reader, d: Disk, d': Disk) {
    d.active.Some? ==> d'.active.Some? && NotOlder(r, r.version(d'.active.value), r.version(d.active.value))
  }

  lemma TrustedIsPristine(r: Reader, plugins: map<string, Plugin>, root: string, data: string)
    requires Trusted(r, plugins, root, r.version(data)) && plugins[root].rules == Some(data)
    ensures Pristine(r, plugins, data, r.version(data))
  {
    assert ReleaseOf(plugins[root], data, r.version(data));
  }

  lemma StepForward(r: Reader, s: State, e: Event)
    requires Inv(r, s) && Settled(r, s.d) && Calm(r, s, e)
    ensures var s' := Happen(r, s, e); Settled(r, s'.d) && Forward(r, s.d, s'.d)
  {
    var s' := Happen(r, s, e);
    if s.d.active.Some? {
      var c := s.d.active.value;
      var x := r.parse(r.version(c)).value;
      PrecedenceOrder(x, x, x);
    }
    match e {
      case Sync(o, f) =>
        SyncEffect(r, s.d, o, f);
        assert Effect(r, s.d, o, s'.d);
        if s'.d.active != s.d.active {
          TrustedIsPristine(r, s.d.plugins, o.root, KeyOf(r, s.d, o).hash);
          if s.d.active.Some? {
            assert Judge(r, s.d, s.d.active.value).1 == r.version(s.d.active.value);
          }
        }
      case _ =>
    }
  }

  /** While releases stay installed a plugin change is calm. */
  lemma InstallingIsCalm(r: Reader, s: State, plugins: map<string, Plugin>)
    requires forall p :: p in s.d.plugins ==> p in plugins && plugins[p] == s.d.plugins[p]
    ensures Calm(r, s, Plugins(plugins))
  {
    if s.d.active.Some? && Pristine(r, s.d.plugins, s.d.active.value, r.version(s.d.active.value)) {
      var p :| p in s.d.plugins && ReleaseOf(s.d.plugins[p], s.d.active.value, r.version(s.d.active.value));
      assert p in plugins && ReleaseOf(plugins[p], s.d.active.value, r.version(s.d.active.value));
    }
  }

  /** Forward only: while nobody edits the file and its origin stays provable, no mix of plugin
      versions, failing writes and crashes ever takes the active copy to an older version. */
  lemma {:induction false} ForwardOnly(r: Reader, s: State, es: seq<Event>)
    requires Inv(r, s) && Settled(r, s.d) && CalmRun(r, s, es)
    ensures var s' := HappenAll(r, s, es); Settled(r, s'.d) && Forward(r, s.d, s'.d)
    decreases |es|
  {
    if es == [] {
      if s.d.active.Some? {
        var x := r.parse(r.version(s.d.active.value)).value;
        PrecedenceOrder(x, x, x);
      }
    } else {
      var mid := Happen(r, s, es[0]);
      StepForward(r, s, es[0]);
      EventKeepsInv(r, s, es[0]);
      ForwardOnly(r, mid, es[1..]);
      var end := HappenAll(r, mid, es[1..]);
      if s.d.active.Some? {
        NotOlderTransitive(r, r.version(end.d.active.value), r.version(mid.d.active.value),
                           r.version(s.d.active.value));
      }
    }
  }

  // ---------------------------------------------------------------------------------------
  // Doing it again, and asking first
  // ---------------------------------------------------------------------------------------

  /** Nothing fails and nothing crashes: a Sync makes at most four writes. */
  function Well(): Faults {
    Faults(true, true, true, true, true, 5)
  }

  lemma RewriteInstalls(r: Reader, d: Disk, k: Key)
    requires d.active != Some(k.hash)
    ensures var spec := RewriteSpec(r, d, k, Well());
            var d' := DoAll(d, spec.1);
            if spec.0.outcome == Created || spec.0.outcome == Written
            then d'.active == Some(k.hash) && d'.key == Some(k) && d'.plugins == d.plugins && |spec.1| <= 4
            else spec.1 == []
  {
    var spec := RewriteSpec(r, d, k, Well());
    if spec.0.outcome == Created || spec.0.outcome == Written {
      var saved := spec.1[..|spec.1| - 2];
      assert spec.1 == saved + Record(k, Well());
      DoAllAppend(d, saved, Record(k, Well()));
      FreeExactly(d.baks, 1);
      NoRecord(d, saved);
      assert forall w :: w in saved ==> Within(d, k, w);
      WritesStayWithin(d, d, k, saved);
      var e := DoAll(d, saved);
      assert Record(k, Well()) == [Replace(k.hash), SetKey(k)];
      assert DoAll(e, Record(k, Well())) == DoAll(Do(e, Replace(k.hash)), [SetKey(k)]);
      assert [SetKey(k)][1..] == [];
      assert DoAll(Do(e, Replace(k.hash)), [SetKey(k)]) == Do(Do(e, Replace(k.hash)), SetKey(k));
    }
  }

  /** A second Sync by the same plugin writes nothing, and answers as the first unless that one
      wrote the file - then it has nothing to do. */
  lemma SecondSyncIsNoop(r: Reader, d: Disk, o: Options)
    ensures var d' := SyncDisk(r, d, o, Well());
            var (first, second) := (SyncSpec(r, d, o, Well()).0, SyncSpec(r, d', o, Well()));
            && second.1 == [] && SyncDisk(r, d', o, Well()) == d'
            && second.0.outcome == if first.outcome == Created || first.outcome == Written then Noop else first.outcome
  {
    var ws := SyncSpec(r, d, o, Well()).1;
    if o.root in d.plugins && d.plugins[o.root].rules.Some? {
      var k := KeyOf(r, d, o);
      if d.active != Some(k.hash) {
        RewriteInstalls(r, d, k);
      }
      assert |ws| <= 4 && Landed(ws, 5) == ws;
      if ws == [SetKey(k)] {
        assert DoAll(d, ws) == DoAll(Do(d, SetKey(k)), []);
      }
    }
  }

  /** `Plan`: the decision of `syncLocked` without a write. It does not look for a free backup
      name - the one it reports is a placeholder - so it cannot see that none is left. */
  function Plan(r: Reader, d: Disk, o: Options): Result {
    if d.active == None && !(o.inProject && o.scopeUser) then Result(Noop, "", "", None)
    else if o.root !in d.plugins || d.plugins[o.root].rules == None then Result(Failed, "", "", None)
    else
      var k := KeyOf(r, d, o);
      if d.active == Some(k.hash) then Result(Noop, "", "", None)
      else if !Trusted(r, d.plugins, o.root, k.version) then Result(Skipped, "", "", None)
      else if d.active == None then Result(Created, "", k.version, None)
      else
        var (pristine, gate, from) := Judge(r, d, d.active.value);
        if Older(r, k.version, gate) then Result(KeptNewer, gate, gate, None)
        else Result(Written, from, k.version, if pristine then None else Some(1))
  }

  /** The session-start hook decides exactly what `Plan` promised - except when the copy must be
      saved and all hundred backup names are taken: then the hook fails and the file stays. */
  lemma PlanIsTheDecision(r: Reader, d: Disk, o: Options)
    ensures var planned, done := Plan(r, d, o), SyncSpec(r, d, o, Well()).0;
            && (planned.outcome == done.outcome
                <==> !(planned.backup.Some? && forall n :: 1 <= n <= BACKUPS ==> n in d.baks))
            && (planned.outcome == done.outcome ==>
                  planned.from == done.from && planned.to == done.to &&
                  (planned.backup.Some? <==> done.backup.Some?))
  {
    FreeExactly(d.baks, 1);
  }

  // ---------------------------------------------------------------------------------------
  // When the copy goes back
  // ---------------------------------------------------------------------------------------

  /** The active copy is there before and after, and older afterwards. */
  predicate WentBack(r: Reader, d: Disk, d': Disk) {
    d.active.Some? && d'.active.Some? && Older(r, r.version(d'.active.value), r.version(d.active.value))
  }

  /** What a Sync needs to take the copy back: a trusted older plugin, a copy without proof of origin, no
      newer key, and room for the backup. */
  predicate CanGoBack(r: Reader, d: Disk, o: Options) {
    && d.active.Some? && o.root in d.plugins && d.plugins[o.root].rules.Some?
    && var ver := KeyOf(r, d, o).version;
       && Trusted(r, d.plugins, o.root, ver) && Older(r, ver, r.version(d.active.value))
       && !Settled(r, d) && !(d.key.Some? && Older(r, ver, d.key.value.version))
       && exists n :: 1 <= n <= BACKUPS && n !in d.baks
  }

  lemma NotOlderThanItself(r: Reader, ver: string)
    ensures !Older(r, ver, ver)
  {
    if ValidVer(r, ver) {
      var x := r.parse(ver).value;
      PrecedenceOrder(x, x, x);
    }
  }

  lemma BackNeedsRoom(r: Reader, s: State, o: Options, f: Faults)
    requires Inv(r, s) && WentBack(r, s.d, SyncDisk(r, s.d, o, f))
    ensures CanGoBack(r, s.d, o)
  {
    var d' := SyncDisk(r, s.d, o, f);
    var c := s.d.active.value;
    SyncEffect(r, s.d, o, f);
    NotOlderThanItself(r, r.version(c));
    assert d'.active == Some(KeyOf(r, s.d, o).hash);
    assert !Settled(r, s.d) by {
      assert Settled(r, s.d) ==> Judge(r, s.d, c).1 == r.version(c);
    }
    FreeExactly(s.d.baks, 1);
  }

  lemma RoomTakesItBack(r: Reader, s: State, o: Options)
    requires Inv(r, s) && CanGoBack(r, s.d, o)
    ensures WentBack(r, s.d, SyncDisk(r, s.d, o, Well()))
  {
    var k := KeyOf(r, s.d, o);
    NotOlderThanItself(r, k.version);
    FreeExactly(s.d.baks, 1);
    RewriteInstalls(r, s.d, k);
    assert RewriteSpec(r, s.d, k, Well()).0.outcome == Written;
    assert SyncDisk(r, s.d, o, Well()) == DoAll(s.d, RewriteSpec(r, s.d, k, Well()).1);
  }

  /** When a Sync takes the copy back: exactly if it can, for a Sync without failures; a Sync that fails or
      crashes does so only then. With a provable origin none does. */
  lemma GoesBackExactly(r: Reader, s: State, o: Options, f: Faults)
    requires Inv(r, s)
    ensures WentBack(r, s.d, SyncDisk(r, s.d, o, Well())) <==> CanGoBack(r, s.d, o)
    ensures WentBack(r, s.d, SyncDisk(r, s.d, o, f)) ==> CanGoBack(r, s.d, o)
  {
    if WentBack(r, s.d, SyncDisk(r, s.d, o, f)) {
      BackNeedsRoom(r, s, o, f);
    }
    if WentBack(r, s.d, SyncDisk(r, s.d, o, Well())) {
      BackNeedsRoom(r, s, o, Well());
    }
    if CanGoBack(r, s.d, o) {
      RoomTakesItBack(r, s, o);
    }
  }

  /** An installed release with these rules. */
  function Release(r: Reader, rules: string): Plugin {
    Plugin(Some(rules), Some(r.version(rules)), "lets", r.version(rules))
  }

  /** A newer plugin replaces the file and crashes before its key. */
  lemma CrashedBeforeItsKey(r: Reader, d: Disk, o: Options, src: string)
    requires o.root in d.plugins && d.plugins[o.root] == Release(r, src) && d.active.Some? && d.active != Some(src)
    requires d.key.Some? && d.key.value.hash == d.active.value && ValidVer(r, r.version(src))
    requires !Older(r, r.version(src), d.key.value.version)
    ensures SyncDisk(r, d, o, Faults(true, true, true, true, true, 1)) == d.(active := Some(src))
  {
    var f := Faults(true, true, true, true, true, 1);
    var k := Key(src, r.version(src), o.root);
    assert [] + Record(k, f) == [Replace(src), SetKey(k)];
    assert SyncSpec(r, d, o, f).1 == [Replace(src), SetKey(k)];
    assert Landed(SyncSpec(r, d, o, f).1, 1) == [Replace(src)];
    assert DoAll(d, [Replace(src)]) == DoAll(Do(d, Replace(src)), []);
  }

  /** So the condition is needed: that copy's release goes away, and an older plugin takes the file back. */
  lemma UninstallBreaksForward(r: Reader, v1: string, v2: string, o: Options, n: Options)
    requires v1 != v2 && Older(r, r.version(v1), r.version(v2)) && o.root != n.root
    ensures var d0 := Disk(Some(v1), Some(Key(v1, r.version(v1), o.root)), map[],
                           map[o.root := Release(r, v1), n.root := Release(r, v2)]);
            var s0 := State(d0, {v1, v2}, {v1, v2}, {});
            var s1 := Happen(r, s0, Sync(n, Faults(true, true, true, true, true, 1)));
            var s2 := Happen(r, s1, Plugins(map[o.root := Release(r, v1)]));
            && Inv(r, s0) && Settled(r, s0.d) && s1.d == d0.(active := Some(v2)) && Settled(r, s1.d)
            && !Settled(r, s2.d) && WentBack(r, s2.d, SyncDisk(r, s2.d, o, Well()))
  {
    var d0 := Disk(Some(v1), Some(Key(v1, r.version(v1), o.root)), map[],
                   map[o.root := Release(r, v1), n.root := Release(r, v2)]);
    var s0 := State(d0, {v1, v2}, {v1, v2}, {});
    var x, y := r.parse(r.version(v1)).value, r.parse(r.version(v2)).value;
    PrecedenceOrder(x, y, x);
    NotOlderThanItself(r, r.version(v1));
    CrashedBeforeItsKey(r, d0, n, v2);
    var s1 := Happen(r, s0, Sync(n, Faults(true, true, true, true, true, 1)));
    assert ReleaseOf(s1.d.plugins[n.root], v2, r.version(v2));
    EventKeepsInv(r, s0, Sync(n, Faults(true, true, true, true, true, 1)));
    AfterUninstall(r, s1, v1, v2, o);
  }

  lemma AfterUninstall(r: Reader, s1: State, v1: string, v2: string, o: Options)
    requires Inv(r, s1) && v1 != v2 && Older(r, r.version(v1), r.version(v2))
    requires s1.d.active == Some(v2) && s1.d.key == Some(Key(v1, r.version(v1), o.root)) && s1.d.baks == map[]
    ensures var s2 := Happen(r, s1, Plugins(map[o.root := Release(r, v1)]));
            !Settled(r, s2.d) && WentBack(r, s2.d, SyncDisk(r, s2.d, o, Well()))
  {
    var s2 := Happen(r, s1, Plugins(map[o.root := Release(r, v1)]));
    EventKeepsInv(r, s1, Plugins(map[o.root := Release(r, v1)]));
    NotOlderThanItself(r, r.version(v1));
    assert 1 !in s2.d.baks;
    assert CanGoBack(r, s2.d, o);
    GoesBackExactly(r, s2, o, Well());
  }
}
