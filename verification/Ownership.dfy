/** Who may delete the temporary worktree of `lets integrate`.

    A temp path belongs to a call only through a proof: the owner marker beside the path
    carries a random nonce, and the git admin dir of the worktree at the path carries the
    same one. This file models every write of that protocol as one atomic step, lets any
    number of calls interleave, crash between any two steps and meet outside actors, and
    shows what a forced removal can hit. */
module Ownership {
  import opened Option

  /** The owner marker file: `Record` is what a call writes, `Unreadable` is anything else. */
  datatype Marker = Unreadable | Record(run: string, chunk: string, path: string, nonce: string)

  /** One `<common-dir>/worktrees/<name>` directory. `made` tells apart the worktrees that
      ever existed: it is the number of the `worktree add` that created this one. */
  datatype Admin = Admin(gitdir: string, nonce: Option<string>, made: nat)

  /** What stands at the temp path: no checkout, or a checkout whose `.git` file names an
      admin dir. */
  datatype Tree = Plain | Linked(admin: string)

  datatype Disk = Disk(marker: Option<Marker>, tree: Option<Tree>, admins: map<string, Admin>)

  predicate Registered(admins: map<string, Admin>, path: string, a: string) {
    a in admins && admins[a].gitdir == path
  }

  /** git refuses to register a path twice. */
  ghost predicate OneRegistration(admins: map<string, Admin>, path: string) {
    forall a, b :: Registered(admins, path, a) && Registered(admins, path, b) ==> a == b
  }

  /** `git worktree remove --force <path>` takes the registered admin dir, and refuses when the
      directory is there but its `.git` names another one. */
  predicate Removable(d: Disk, path: string, a: string) {
    Registered(d.admins, path, a) && (d.tree == None || d.tree == Some(Linked(a)))
  }

  function GitRemove(d: Disk, a: string): Disk {
    d.(tree := None, admins := d.admins - {a})
  }

  predicate Provable(d: Disk, a: string, nonce: string) {
    a in d.admins && d.admins[a].nonce == Some(nonce)
  }

  // ---------------------------------------------------------------------------------------
  // The machine
  // ---------------------------------------------------------------------------------------

  /** Where a call stands between two of its writes; what it read before is in the state. */
  datatype Pc =
    | Idle
    | Listed                                 // git listed the path
    | Missing                                // and then nothing stood there
    | MissingMarker(nonce: string)           // and then the marker named this run, chunk and path
    | HasMarker(nonce: string)               // the marker named them, without such a look
    | ProvedTree                             // about to run `worktree remove --force`
    | ProvedAdmin(admin: string)             // about to delete this admin dir
    | Marked(nonce: string)                  // owner marker written
    | Added(nonce: string)                   // worktree added, nonce not yet in its gitdir
    | Located(nonce: string, admin: string)  // its gitdir is known

  datatype Proc = Proc(run: string, chunk: string, pc: Pc)

  /** `ours` are the worktrees the protocol added, `issued` the nonces it drew, `next` the number
      of the next `worktree add`, `hits` what was force-removed or deleted so far. */
  datatype State = State(path: string, disk: Disk, procs: map<nat, Proc>,
                         ours: set<nat>, issued: set<string>, next: nat, hits: seq<nat>)

  datatype Act =
    | Start(p: nat, run: string, chunk: string)
    | SeeListed(p: nat)
    | SeeMissing(p: nat)
    | ReadMarker(p: nat)
    | ProveTree(p: nat, a: string)
    | ProveAdmin(p: nat, a: string)
    | RemoveTree(p: nat, a: string)   // after the proof, or directly after a failed nonce write
    | DeleteAdmin(p: nat)
    | DropMarker(p: nat)
    | WriteMarker(p: nat, nonce: string)
    | AddTree(p: nat, a: string)
    | Locate(p: nat, a: string)
    | WriteNonce(p: nat)
    | Crash(p: nat)                   // also: any error return
    | Outside(disk: Disk)

  predicate MarkerNames(m: Marker, run: string, chunk: string, path: string) {
    m.Record? && m.run == run && m.chunk == chunk && m.path == path && m.nonce != ""
  }

  predicate ValidName(name: string) {
    1 <= |name| <= 40 && forall i :: 0 <= i < |name| ==>
      'a' <= name[i] <= 'z' || '0' <= name[i] <= '9' || name[i] == '-'
  }

  predicate EndsWith(s: string, end: string) {
    |end| <= |s| && s[|s| - |end|..] == end
  }

  /** `newTemp`: the path a call works at is `<run>-<chunk>` in a directory of the repository. */
  predicate PathNames(path: string, run: string, chunk: string) {
    ValidName(run) && ValidName(chunk) && EndsWith(path, ['/'] + run + ['-'] + chunk)
  }

  ghost predicate Enabled(s: State, act: Act) {
    match act
    case Outside(d) => Unforged(s, d)
    case Start(p, run, chunk) => PathNames(s.path, run, chunk)
    case SeeListed(p) => p in s.procs && exists b :: Registered(s.disk.admins, s.path, b)
    case SeeMissing(p) => p in s.procs && s.procs[p].pc == Listed && s.disk.tree == None
    case ReadMarker(p) =>
      p in s.procs && s.disk.marker.Some? && MarkerNames(s.disk.marker.value, s.procs[p].run, s.procs[p].chunk, s.path)
    case ProveTree(p, a) =>
      p in s.procs && s.procs[p].pc.HasMarker? && s.disk.tree == Some(Linked(a))
      && Provable(s.disk, a, s.procs[p].pc.nonce)
    case ProveAdmin(p, a) =>
      p in s.procs && s.procs[p].pc.MissingMarker? && Registered(s.disk.admins, s.path, a)
      && Provable(s.disk, a, s.procs[p].pc.nonce)
    case RemoveTree(p, a) =>
      p in s.procs && (s.procs[p].pc.ProvedTree? || s.procs[p].pc.Added? || s.procs[p].pc.Located?)
      && Removable(s.disk, s.path, a)
    case DeleteAdmin(p) => p in s.procs && s.procs[p].pc.ProvedAdmin?
    case DropMarker(p) => p in s.procs
    case WriteMarker(p, nonce) => p in s.procs && nonce != "" && nonce !in s.issued && Fresh(s.disk, nonce)
    case AddTree(p, a) => p in s.procs && s.procs[p].pc.Marked? && Addable(s.disk, s.path, a)
    case Locate(p, a) => p in s.procs && s.procs[p].pc.Added? && s.disk.tree == Some(Linked(a)) && a in s.disk.admins
    case WriteNonce(p) => p in s.procs && s.procs[p].pc.Located?
    case Crash(p) => p in s.procs
  }

  /** `git worktree add <path>`: no checkout there, the path not registered, a new admin dir. */
  ghost predicate Addable(d: Disk, path: string, a: string) {
    (d.tree == None || d.tree == Some(Plain)) && a !in d.admins && forall b :: !Registered(d.admins, path, b)
  }

  /** A new random nonce is on no disk. */
  ghost predicate Fresh(d: Disk, nonce: string) {
    forall a :: a in d.admins ==> d.admins[a].nonce != Some(nonce)
  }

  /** What an outside actor may do to the disk: create, move, delete and replace directories,
      worktrees, registrations and markers. It cannot draw a nonce the protocol drew, so it never
      puts one into a gitdir, and what it registers is not a worktree of ours. It may put an old
      marker back. */
  ghost predicate Unforged(s: State, d: Disk) {
    && OneRegistration(d.admins, s.path)
    && (d.marker.Some? && d.marker.value.Record? ==> d.marker.value.nonce in s.issued)
    && forall a :: a in d.admins ==>
         var x := d.admins[a];
         && (x.nonce.Some? && x.nonce.value in s.issued ==>
               a in s.disk.admins && s.disk.admins[a].made == x.made && s.disk.admins[a].nonce == x.nonce)
         && (x.made in s.ours ==> a in s.disk.admins && s.disk.admins[a].made == x.made)
  }

  function SetPc(s: State, p: nat, pc: Pc): State
    requires p in s.procs
  {
    s.(procs := s.procs[p := s.procs[p].(pc := pc)])
  }

  ghost function Next(s: State, act: Act): State
    requires Enabled(s, act)
  {
    match act
    case Outside(d) => s.(disk := d)
    case Start(p, run, chunk) => s.(procs := s.procs[p := Proc(run, chunk, Idle)])
    case SeeListed(p) => SetPc(s, p, Listed)
    case SeeMissing(p) => SetPc(s, p, Missing)
    case ReadMarker(p) =>
      var nonce := s.disk.marker.value.nonce;
      SetPc(s, p, if s.procs[p].pc == Missing then MissingMarker(nonce) else HasMarker(nonce))
    case ProveTree(p, a) => SetPc(s, p, ProvedTree)
    case ProveAdmin(p, a) => SetPc(s, p, ProvedAdmin(a))
    case RemoveTree(p, a) =>
      SetPc(s, p, Idle).(disk := GitRemove(s.disk, a), hits := s.hits + [s.disk.admins[a].made])
    case DeleteAdmin(p) =>
      var a := s.procs[p].pc.admin;
      SetPc(s, p, Idle).(disk := s.disk.(admins := s.disk.admins - {a}),
                         hits := if a in s.disk.admins then s.hits + [s.disk.admins[a].made] else s.hits)
    case DropMarker(p) => SetPc(s, p, Idle).(disk := s.disk.(marker := None))
    case WriteMarker(p, nonce) =>
      SetPc(s, p, Marked(nonce)).(
        disk := s.disk.(marker := Some(Record(s.procs[p].run, s.procs[p].chunk, s.path, nonce))),
        issued := s.issued + {nonce})
    case AddTree(p, a) =>
      SetPc(s, p, Added(s.procs[p].pc.nonce)).(
        disk := s.disk.(tree := Some(Linked(a)), admins := s.disk.admins[a := Admin(s.path, None, s.next)]),
        ours := s.ours + {s.next}, next := s.next + 1)
    case Locate(p, a) => SetPc(s, p, Located(s.procs[p].pc.nonce, a))
    case WriteNonce(p) =>
      var pc := s.procs[p].pc;
      var admins := s.disk.admins;
      SetPc(s, p, Idle).(disk := if pc.admin in admins
                                 then s.disk.(admins := admins[pc.admin := admins[pc.admin].(nonce := Some(pc.nonce))])
                                 else s.disk)
    case Crash(p) => SetPc(s, p, Idle)
  }

  /** The record of the hits is complete: an admin dir that a call's step takes from the disk is recorded, by the
      worktree it stood for, and a step that takes none records none. */
  lemma HitsExactly(s: State, act: Act)
    requires Enabled(s, act) && !act.Outside?
    ensures forall a :: a in s.disk.admins && a !in Next(s, act).disk.admins ==>
              Next(s, act).hits == s.hits + [s.disk.admins[a].made] && (act.RemoveTree? || act.DeleteAdmin?)
    ensures (forall a :: a in s.disk.admins ==> a in Next(s, act).disk.admins) ==> Next(s, act).hits == s.hits
  {
    if act.RemoveTree? {
      assert act.a in s.disk.admins && act.a !in Next(s, act).disk.admins;
    }
  }

  // ---------------------------------------------------------------------------------------
  // What a call in the middle of a removal relies on
  // ---------------------------------------------------------------------------------------

  ghost predicate Ours(s: State, a: string) {
    a in s.disk.admins ==> s.disk.admins[a].made in s.ours
  }

  ghost predicate RemovalSafe(s: State) {
    forall a :: Removable(s.disk, s.path, a) ==> Ours(s, a)
  }

  /** The window of a call: between its proof (or its own `worktree add`) and the write that
      relies on it, nothing foreign may take the place of what was proved. */
  ghost predicate WindowSafe(s: State, pc: Pc) {
    match pc
    case ProvedTree => RemovalSafe(s)
    case ProvedAdmin(a) => Ours(s, a)
    case Added(_) => RemovalSafe(s) && forall a :: s.disk.tree == Some(Linked(a)) ==> Ours(s, a)
    case Located(_, a) => RemovalSafe(s) && Ours(s, a)
    case _ => true
  }

  /** Between a proof, or a `worktree add`, and the write that relies on it. */
  predicate Open(pc: Pc) {
    pc.ProvedTree? || pc.ProvedAdmin? || pc.Added? || pc.Located?
  }

  ghost predicate WindowsSafe(s: State) {
    forall p :: p in s.procs ==> WindowSafe(s, s.procs[p].pc)
  }

  predicate PcNonceIssued(pc: Pc, issued: set<string>) {
    (pc.HasMarker? || pc.MissingMarker? || pc.Marked? || pc.Added? || pc.Located?) ==> pc.nonce in issued
  }

  /** What every state has, whatever outsiders did: an issued nonce lies only in gitdirs the
      protocol wrote it to, and numbers are handed out once. */
  ghost predicate Inv(s: State) {
    && OneRegistration(s.disk.admins, s.path)
    && (forall a :: a in s.disk.admins && s.disk.admins[a].nonce.Some? && s.disk.admins[a].nonce.value in s.issued ==>
         s.disk.admins[a].made in s.ours)
    && (s.disk.marker.Some? && s.disk.marker.value.Record? ==> s.disk.marker.value.nonce in s.issued)
    && (forall p :: p in s.procs ==> PcNonceIssued(s.procs[p].pc, s.issued))
    && (forall n :: n in s.ours ==> n < s.next)
    && WindowsSafe(s)
    && (forall n :: n in s.hits ==> n in s.ours)
  }

  /** An outside step that leaves every open window as it is. */
  ghost predicate Undisturbing(s: State, act: Act)
    requires Enabled(s, act)
  {
    act.Outside? ==> WindowsSafe(Next(s, act))
  }

  /** No step of any call - proof, removal, creation, nonce write, crash - opens another
      call's window to a foreign worktree, and none hits one. */
  lemma StepKeepsInv(s: State, act: Act)
    requires Inv(s) && Enabled(s, act) && Undisturbing(s, act)
    ensures Inv(Next(s, act))
  {
    match act {
      case Outside(d) =>
      case AddTree(p, a) => AddKeeps(s, p, a);
      case RemoveTree(p, a) => RemovalKeeps(s, p, a);
      case DeleteAdmin(p) => DeletionKeeps(s, p);
      case WriteNonce(p) => NonceKeeps(s, p);
      case WriteMarker(p, nonce) => MarkerKeeps(s, p, nonce);
      case ProveTree(p, a) => ProofKeeps(s, p, a);
      case ProveAdmin(p, a) => AdminProofKeeps(s, p, a);
      case Locate(p, a) => LocatingKeeps(s, p, a);
      case _ => ReadKeeps(s, act);
    }
  }

  lemma RemovalKeeps(s: State, p: nat, a: string)
    requires Inv(s) && Enabled(s, RemoveTree(p, a))
    ensures Inv(Next(s, RemoveTree(p, a)))
  {
    var s' := Next(s, RemoveTree(p, a));
    ShrinkKeeps(s, a, s');
    assert WindowSafe(s, s.procs[p].pc);
    forall b | Registered(s'.disk.admins, s.path, b) ensures Registered(s.disk.admins, s.path, b) {}
  }

  lemma DeletionKeeps(s: State, p: nat)
    requires Inv(s) && Enabled(s, DeleteAdmin(p))
    ensures Inv(Next(s, DeleteAdmin(p)))
  {
    var s' := Next(s, DeleteAdmin(p));
    ShrinkKeeps(s, s.procs[p].pc.admin, s');
    assert WindowSafe(s, s.procs[p].pc);
    forall b | Registered(s'.disk.admins, s.path, b) ensures Registered(s.disk.admins, s.path, b) {}
  }

  lemma MarkerKeeps(s: State, p: nat, nonce: string)
    requires Inv(s) && Enabled(s, WriteMarker(p, nonce))
    ensures Inv(Next(s, WriteMarker(p, nonce)))
  {
    var s' := Next(s, WriteMarker(p, nonce));
    SameTreesKeep(s, s');
    forall b | Registered(s'.disk.admins, s.path, b) ensures Registered(s.disk.admins, s.path, b) {}
  }

  lemma ProofKeeps(s: State, p: nat, a: string)
    requires Inv(s) && Enabled(s, ProveTree(p, a))
    ensures Inv(Next(s, ProveTree(p, a)))
  {
    var s' := Next(s, ProveTree(p, a));
    assert WindowSafe(s', ProvedTree);
    SameTreesKeep(s, s');
    forall b | Registered(s'.disk.admins, s.path, b) ensures Registered(s.disk.admins, s.path, b) {}
  }

  lemma AdminProofKeeps(s: State, p: nat, a: string)
    requires Inv(s) && Enabled(s, ProveAdmin(p, a))
    ensures Inv(Next(s, ProveAdmin(p, a)))
  {
    var s' := Next(s, ProveAdmin(p, a));
    SameTreesKeep(s, s');
    forall b | Registered(s'.disk.admins, s.path, b) ensures Registered(s.disk.admins, s.path, b) {}
  }

  lemma LocatingKeeps(s: State, p: nat, a: string)
    requires Inv(s) && Enabled(s, Locate(p, a))
    ensures Inv(Next(s, Locate(p, a)))
  {
    var s' := Next(s, Locate(p, a));
    assert WindowSafe(s, s.procs[p].pc);
    SameTreesKeep(s, s');
    forall b | Registered(s'.disk.admins, s.path, b) ensures Registered(s.disk.admins, s.path, b) {}
  }

  lemma ReadKeeps(s: State, act: Act)
    requires Inv(s) && Enabled(s, act)
    requires act.Start? || act.SeeListed? || act.SeeMissing? || act.ReadMarker? || act.DropMarker? || act.Crash?
    ensures Inv(Next(s, act))
  {
    var s' := Next(s, act);
    SameTreesKeep(s, s');
    forall b | Registered(s'.disk.admins, s.path, b) ensures Registered(s.disk.admins, s.path, b) {}
  }

  lemma ShrinkKeeps(s: State, a: string, s': State)
    requires WindowsSafe(s)
    requires s'.path == s.path && s'.ours == s.ours && s'.disk.admins == s.disk.admins - {a}
    requires s'.disk.tree == s.disk.tree
             || (s'.disk.tree == None && OneRegistration(s.disk.admins, s.path) && Registered(s.disk.admins, s.path, a))
    requires forall p :: p in s'.procs ==> p in s.procs && (s'.procs[p].pc == s.procs[p].pc || s'.procs[p].pc == Idle)
    ensures WindowsSafe(s')
  {
    forall p | p in s'.procs
      ensures WindowSafe(s', s'.procs[p].pc)
    {
      assert WindowSafe(s, s.procs[p].pc);
      forall b | Removable(s'.disk, s'.path, b)
        ensures Removable(s.disk, s.path, b)
      {
        assert Registered(s.disk.admins, s.path, b);
      }
    }
  }

  lemma SameTreesKeep(s: State, s': State)
    requires WindowsSafe(s)
    requires s'.path == s.path && s'.ours == s.ours && s'.disk.admins == s.disk.admins && s'.disk.tree == s.disk.tree
    requires forall p :: p in s'.procs && (p !in s.procs || s'.procs[p].pc != s.procs[p].pc) ==>
               WindowSafe(s', s'.procs[p].pc)
    ensures WindowsSafe(s')
  {
    forall p | p in s'.procs && p in s.procs && s'.procs[p].pc == s.procs[p].pc
      ensures WindowSafe(s', s'.procs[p].pc)
    {
      assert WindowSafe(s, s.procs[p].pc);
      assert forall a :: Removable(s'.disk, s'.path, a) <==> Removable(s.disk, s.path, a);
    }
  }

  lemma AddKeeps(s: State, p: nat, a: string)
    requires Inv(s) && Enabled(s, AddTree(p, a))
    ensures Inv(Next(s, AddTree(p, a)))
  {
    var s' := Next(s, AddTree(p, a));
    forall b | Registered(s'.disk.admins, s.path, b)
      ensures b == a
    {
      assert !Registered(s.disk.admins, s.path, b);
    }
    forall q | q in s'.procs
      ensures WindowSafe(s', s'.procs[q].pc)
    {
      if q != p {
        assert WindowSafe(s, s.procs[q].pc);
      }
    }
  }

  lemma NonceKeeps(s: State, p: nat)
    requires Inv(s) && Enabled(s, WriteNonce(p))
    ensures Inv(Next(s, WriteNonce(p)))
  {
    var s' := Next(s, WriteNonce(p));
    assert WindowSafe(s, s.procs[p].pc);
    assert forall a :: a in s'.disk.admins ==>
             a in s.disk.admins && s'.disk.admins[a].made == s.disk.admins[a].made
             && s'.disk.admins[a].gitdir == s.disk.admins[a].gitdir;
    forall b
      ensures Registered(s'.disk.admins, s.path, b) <==> Registered(s.disk.admins, s.path, b)
      ensures Removable(s'.disk, s.path, b) ==> Removable(s.disk, s.path, b)
    {
    }
    forall q | q in s'.procs
      ensures WindowSafe(s', s'.procs[q].pc)
    {
      if q != p {
        assert WindowSafe(s, s.procs[q].pc);
      }
    }
  }

  // ---------------------------------------------------------------------------------------
  // Runs
  // ---------------------------------------------------------------------------------------

  ghost predicate Possible(s: State, acts: seq<Act>)
    decreases |acts|
  {
    acts != [] ==> Enabled(s, acts[0]) && Possible(Next(s, acts[0]), acts[1..])
  }

  ghost function After(s: State, acts: seq<Act>): State
    requires Possible(s, acts)
    decreases |acts|
  {
    if acts == [] then s else After(Next(s, acts[0]), acts[1..])
  }

  /** No outside step of the run falls into a window and puts a foreign worktree there. */
  ghost predicate Undisturbed(s: State, acts: seq<Act>)
    requires Possible(s, acts)
    decreases |acts|
  {
    acts != [] ==> Undisturbing(s, acts[0]) && Undisturbed(Next(s, acts[0]), acts[1..])
  }

  /** A repository before the first call: whatever lies there, no nonce was drawn yet. */
  ghost predicate Init(s: State) {
    && OneRegistration(s.disk.admins, s.path)
    && !(s.disk.marker.Some? && s.disk.marker.value.Record?)
    && s.procs == map[] && s.ours == {} && s.issued == {} && s.hits == []
  }

  lemma {:induction false} RunKeepsInv(s: State, acts: seq<Act>)
    requires Inv(s) && Possible(s, acts) && Undisturbed(s, acts)
    ensures Inv(After(s, acts))
    decreases |acts|
  {
    if acts != [] {
      StepKeepsInv(s, acts[0]);
      RunKeepsInv(Next(s, acts[0]), acts[1..]);
    }
  }

  /** Ownership over all runs: over every interleaving of calls, crashes and outside actors,
      everything force-removed or deleted was a worktree the protocol itself added. */
  lemma OnlyOursRemoved(s: State, acts: seq<Act>)
    requires Init(s) && Possible(s, acts) && Undisturbed(s, acts)
    ensures forall n :: n in After(s, acts).hits ==> n in After(s, acts).ours
  {
    RunKeepsInv(s, acts);
  }

  /** A run with no outside step while some call is inside a window is undisturbed. */
  ghost predicate QuietWindows(s: State, acts: seq<Act>)
    requires Possible(s, acts)
    decreases |acts|
  {
    acts != [] ==>
      && (acts[0].Outside? ==> forall p :: p in s.procs ==> !Open(s.procs[p].pc))
      && QuietWindows(Next(s, acts[0]), acts[1..])
  }

  lemma {:induction false} QuietIsUndisturbed(s: State, acts: seq<Act>)
    requires Possible(s, acts) && QuietWindows(s, acts)
    ensures Undisturbed(s, acts)
    decreases |acts|
  {
    if acts != [] {
      QuietIsUndisturbed(Next(s, acts[0]), acts[1..]);
    }
  }
}
