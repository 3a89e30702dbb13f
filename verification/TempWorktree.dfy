/** The methods of one `lets integrate` call on its temporary worktree, as the code runs them.
    Every write they make is a step of the machine in `Ownership`, so what is proved there over
    all interleavings and crashes holds for them. */
module TempWorktree {
  import opened Option
  import opened Ownership

  datatype Kind = TempForeign | GitError | IoError
  datatype Outcome = Done | Err(kind: Kind)

  /** Which of the calls into git and the file system succeed. */
  datatype Faults = Faults(list: bool, remove: bool, deleteAdmin: bool, dropMarker: bool,
                           mkdir: bool, writeMarker: bool, add: bool, locate: bool, writeNonce: bool)

  /** The proof of `removeOwned`: the marker names this call, git lists the path, and the gitdir of
      the checkout that stands there holds the marker's nonce. */
  ghost predicate Proven(d: Disk, run: string, chunk: string, path: string, a: string) {
    && d.marker.Some? && MarkerNames(d.marker.value, run, chunk, path)
    && (exists b :: Registered(d.admins, path, b))
    && d.tree == Some(Linked(a)) && Provable(d, a, d.marker.value.nonce)
  }

  /** The proof, and the admin dir it names is the one git will remove. */
  ghost predicate RemovableByProof(d: Disk, run: string, chunk: string, path: string, a: string) {
    Proven(d, run, chunk, path, a) && Registered(d.admins, path, a)
  }

  /** The proof of `clearStale` for a registration whose directory is gone: the marker names this call, and
      the registered admin dir holds its nonce. */
  ghost predicate DeletableByProof(d: Disk, run: string, chunk: string, path: string, a: string) {
    && d.tree == None && d.marker.Some? && MarkerNames(d.marker.value, run, chunk, path)
    && Registered(d.admins, path, a) && Provable(d, a, d.marker.value.nonce)
  }

  ghost predicate SomeProven(d: Disk, run: string, chunk: string, path: string) {
    exists a :: Proven(d, run, chunk, path, a)
  }

  ghost predicate SomeRemovable(d: Disk, run: string, chunk: string, path: string) {
    exists a :: RemovableByProof(d, run, chunk, path, a)
  }

  ghost predicate SomeDeletable(d: Disk, run: string, chunk: string, path: string) {
    exists a :: DeletableByProof(d, run, chunk, path, a)
  }

  ghost predicate Free(d: Disk, path: string) {
    d.tree == None && forall b :: !Registered(d.admins, path, b)
  }

  /** `acts` lead from `s` to `t`, and no outside step is among them. */
  ghost predicate Ran(s: State, acts: seq<Act>, t: State) {
    Possible(s, acts) && After(s, acts) == t && NoOutside(acts)
  }

  ghost predicate NoOutside(acts: seq<Act>) {
    forall i :: 0 <= i < |acts| ==> !acts[i].Outside?
  }

  /** Where reading the marker leads: a call that saw the path missing remembers it. */
  function Read(pc: Pc, nonce: string): Pc {
    if pc == Missing then MissingMarker(nonce) else HasMarker(nonce)
  }

  class Call {
    const run: string
    const chunk: string
    const path: string
    ghost const pid: nat
    var marker: Option<Marker>
    var tree: Option<Tree>
    var admins: map<string, Admin>
    ghost var st: State          // the machine this disk belongs to
    ghost var acts: seq<Act>     // the steps taken since `st0`
    ghost var st0: State

    ghost function OnDisk(): Disk
      reads this
    {
      Disk(marker, tree, admins)
    }

    /** `acts` led from `st0` to the present disk, all by this call. */
    ghost predicate Valid()
      reads this
    {
      && st.path == path && st.disk == OnDisk()
      && pid in st.procs && st.procs[pid].run == run && st.procs[pid].chunk == chunk
      && OneRegistration(admins, path)
      && Ran(st0, acts, st)
    }

    ghost function Pc(): Pc
      requires Valid()
      reads this
    {
      st.procs[pid].pc
    }

    constructor (run: string, chunk: string, path: string, d: Disk, ghost s: State, ghost p: nat)
      requires s.disk == d && s.path == path && OneRegistration(d.admins, s.path)
      requires p in s.procs && s.procs[p].run == run && s.procs[p].chunk == chunk
      ensures Valid() && st == s && st0 == s && acts == [] && pid == p
      ensures this.run == run && this.chunk == chunk && this.path == path && OnDisk() == d
    {
      this.run, this.chunk, this.path, this.pid := run, chunk, path, p;
      marker, tree, admins := d.marker, d.tree, d.admins;
      st, st0, acts := s, s, [];
    }

    // The single writes (and the reads a write relies on): each is one machine step.

    ghost method Take(act: Act)
      requires Ran(st0, acts, st) && Enabled(st, act) && !act.Outside?
      modifies this`st, this`acts
      ensures st == Next(old(st), act) && acts == old(acts) + [act] && Ran(st0, acts, st)
    {
      AppendStep(st0, acts, act);
      st := Next(st, act);
      acts := acts + [act];
    }

    /** `clearStale` found the path registered and nothing there. */
    ghost method NoteMissing()
      requires Valid() && tree == None && exists b :: Registered(admins, path, b)
      modifies this`st, this`acts
      ensures Valid() && old(acts) <= acts && Pc() == Missing
    {
      Take(SeeListed(pid));
      Take(SeeMissing(pid));
    }

    ghost method NoteMarker()
      requires Valid() && MarkerOk()
      modifies this`st, this`acts
      ensures Valid() && old(acts) <= acts && Pc() == Read(old(Pc()), marker.value.nonce)
    {
      Take(Act.ReadMarker(pid));
    }

    ghost method NoteTreeProof(a: string)
      requires Valid() && Pc().HasMarker? && tree == Some(Linked(a)) && Provable(OnDisk(), a, Pc().nonce)
      modifies this`st, this`acts
      ensures Valid() && old(acts) <= acts && Pc() == ProvedTree
    {
      Take(ProveTree(pid, a));
    }

    ghost method NoteAdminProof(a: string)
      requires Valid() && Pc().MissingMarker? && Registered(admins, path, a) && Provable(OnDisk(), a, Pc().nonce)
      modifies this`st, this`acts
      ensures Valid() && old(acts) <= acts && Pc() == ProvedAdmin(a)
    {
      Take(ProveAdmin(pid, a));
    }

    ghost method NoteGitdir(a: string)
      requires Valid() && Pc().Added? && tree == Some(Linked(a)) && a in admins
      modifies this`st, this`acts
      ensures Valid() && old(acts) <= acts && Pc() == Located(old(Pc()).nonce, a)
    {
      Take(Locate(pid, a));
    }

    /** `git worktree remove --force <path>` */
    method RemoveTree(a: string)
      requires Valid() && (Pc().ProvedTree? || Pc().Added? || Pc().Located?) && Removable(OnDisk(), path, a)
      modifies this`st, this`acts, this`tree, this`admins
      ensures Valid() && old(acts) <= acts
      ensures tree == None && admins == old(admins) - {a} && Free(OnDisk(), path)
    {
      Take(Act.RemoveTree(pid, a));
      tree, admins := None, admins - {a};
      NoneLeft(old(admins), path, a);
    }

    method DeleteAdmin(a: string)
      requires Valid() && Pc() == ProvedAdmin(a) && Registered(admins, path, a)
      modifies this`st, this`acts, this`admins
      ensures Valid() && old(acts) <= acts
      ensures admins == old(admins) - {a} && forall b :: !Registered(admins, path, b)
    {
      Take(Act.DeleteAdmin(pid));
      admins := admins - {a};
      NoneLeft(old(admins), path, a);
    }

    method DropMarker()
      requires Valid()
      modifies this`st, this`acts, this`marker
      ensures Valid() && old(acts) <= acts && marker == None
    {
      Take(Act.DropMarker(pid));
      marker := None;
    }

    method WriteMarker(nonce: string)
      requires Valid() && nonce != "" && nonce !in st.issued && Fresh(OnDisk(), nonce)
      modifies this`st, this`acts, this`marker
      ensures Valid() && old(acts) <= acts && Pc() == Marked(nonce) && st.next == old(st.next)
      ensures marker == Some(Record(run, chunk, path, nonce))
    {
      Take(Act.WriteMarker(pid, nonce));
      marker := Some(Record(run, chunk, path, nonce));
    }

    /** `git worktree add --detach <path>` */
    method AddTree(a: string, made: nat)
      requires Valid() && Pc().Marked? && Addable() && a !in admins && made == st.next
      modifies this`st, this`acts, this`tree, this`admins
      ensures Valid() && old(acts) <= acts && Pc() == Added(old(Pc()).nonce)
      ensures tree == Some(Linked(a)) && admins == old(admins)[a := Admin(path, None, made)]
    {
      Take(Act.AddTree(pid, a));
      tree, admins := Some(Linked(a)), admins[a := Admin(path, None, made)];
      forall b | Registered(admins, path, b)
        ensures b == a
      {
        assert !Registered(old(admins), path, b);
      }
    }

    method WriteNonce(a: string, nonce: string)
      requires Valid() && Pc() == Located(nonce, a) && a in admins
      modifies this`st, this`acts, this`admins
      ensures Valid() && old(acts) <= acts
      ensures admins == old(admins)[a := old(admins)[a].(nonce := Some(nonce))]
    {
      Take(Act.WriteNonce(pid));
      admins := admins[a := admins[a].(nonce := Some(nonce))];
      forall b | Registered(admins, path, b)
        ensures Registered(old(admins), path, b)
      {
      }
    }

    /** `readMarker`: the nonce of an owner marker that names this run, chunk and path. */
    method ReadMarker() returns (nonce: Option<string>)
      requires Valid()
      modifies this`st, this`acts
      ensures Valid() && old(acts) <= acts
      ensures nonce.Some? <==> marker.Some? && MarkerNames(marker.value, run, chunk, path)
      ensures nonce.Some? ==> nonce.value == marker.value.nonce && Pc() == Read(old(Pc()), nonce.value)
      ensures nonce.Some? ==> marker == Some(Record(run, chunk, path, nonce.value)) && nonce.value != ""
      ensures nonce == None ==> forall n :: marker == Some(Record(run, chunk, path, n)) ==> n == ""
    {
      if marker.Some? && marker.value.Record? && MarkerNames(marker.value, run, chunk, path) {
        NoteMarker();
        return Some(marker.value.nonce);
      }
      return None;
    }

    /** `ownAdminDir`: the admin dir whose gitdir file names the path and that holds the nonce. */
    method OwnAdminDir(nonce: string) returns (admin: Option<string>)
      requires Valid()
      ensures admin.Some? ==> Registered(admins, path, admin.value) && Provable(OnDisk(), admin.value, nonce)
      ensures admin == None ==> forall a :: Registered(admins, path, a) ==> !Provable(OnDisk(), a, nonce)
      ensures admin.Some? ==> admin.value in admins && admins[admin.value].gitdir == path
                              && admins[admin.value].nonce == Some(nonce)
      ensures admin == None ==> forall a :: a in admins && admins[a].gitdir == path ==> admins[a].nonce != Some(nonce)
    {
      var dirs := admins.Keys;
      while dirs != {}
        invariant dirs <= admins.Keys
        invariant forall a :: a in admins && a !in dirs && Registered(admins, path, a) ==> !Provable(OnDisk(), a, nonce)
        decreases |dirs|
      {
        var d :| d in dirs;
        dirs := dirs - {d};
        if admins[d].gitdir == path && admins[d].nonce == Some(nonce) {
          return Some(d);
        }
      }
      return None;
    }

    /** `listed`: does git register the path? */
    method Listed() returns (listed: bool)
      requires Valid()
      ensures listed <==> exists b :: Registered(admins, path, b)
      ensures listed <==> exists b :: b in admins && admins[b].gitdir == path
    {
      listed := exists b | b in admins :: admins[b].gitdir == path;
      if listed {
        ghost var b :| b in admins && admins[b].gitdir == path;
        assert Registered(admins, path, b);
      }
    }

    /** `removeOwned`: the proof, then `worktree remove --force`, then the marker. Nothing is
        removed without the proof; with it, and git and the file system willing, all is. */
    method RemoveOwned(f: Faults) returns (r: Outcome)
      requires Valid() && !Pc().Missing?
      modifies this
      ensures Valid() && old(acts) <= acts && st0 == old(st0)
      ensures r.Err? && r.kind != IoError ==> OnDisk() == old(OnDisk())
      ensures OnDisk() != old(OnDisk()) ==>
                exists a :: RemovableByProof(old(OnDisk()), run, chunk, path, a)
                             && tree == None && admins == old(admins) - {a}
      ensures r == Done ==> marker == None && Free(OnDisk(), path) && OnDisk() != old(OnDisk())
      ensures r == Err(IoError) ==> marker == old(marker) && Free(OnDisk(), path)
      ensures r == Done <==> f.list && f.remove && f.dropMarker && SomeRemovable(old(OnDisk()), run, chunk, path)
      ensures r == Err(IoError)
              <==> f.list && f.remove && !f.dropMarker && SomeRemovable(old(OnDisk()), run, chunk, path)
      ensures r == Err(GitError)
              <==> if f.list then SomeProven(old(OnDisk()), run, chunk, path)
                                  && !(f.remove && SomeRemovable(old(OnDisk()), run, chunk, path))
                   else old(MarkerOk())
      ensures r == Done || r == Err(IoError) ==>
                forall a :: RemovableByProof(old(OnDisk()), run, chunk, path, a) ==>
                  tree == None && admins == old(admins) - {a}
    {
      var nonce := ReadMarker();
      if nonce == None { return Err(TempForeign); }
      if !f.list { return Err(GitError); }
      var listed := Listed();
      if !listed { return Err(TempForeign); }
      // no directory, a plain directory (its gitdir is the common dir) or a dangling link
      if tree == None || tree.value.Plain? || tree.value.admin !in admins { return Err(TempForeign); }
      var a := tree.value.admin;
      if admins[a].nonce != nonce { return Err(TempForeign); }
      NoteTreeProof(a);
      assert Proven(old(OnDisk()), run, chunk, path, a);
      if !f.remove || admins[a].gitdir != path { return Err(GitError); }
      assert RemovableByProof(old(OnDisk()), run, chunk, path, a);
      RemoveTree(a);
      if !f.dropMarker { return Err(IoError); }
      DropMarker();
      return Done;
    }

    ghost predicate MarkerOk()
      reads this
    {
      marker.Some? && MarkerNames(marker.value, run, chunk, path)
    }

    /** `clearStale`: when a call frees the path, and what it leaves. It succeeds exactly at a free path, with
        the proof of a registration whose directory is gone, or with that of the worktree that stands there,
        as far as git and the file system let it; then just the proved admin dir is gone. A refusal touched
        nothing, and a marker is dropped without a proof only when nothing stands behind it. */
    method ClearStale(f: Faults) returns (r: Outcome)
      requires Valid() && !Pc().Missing?
      modifies this
      ensures Valid() && old(acts) <= acts && st0 == old(st0)
      ensures r.Err? && r.kind != IoError ==> OnDisk() == old(OnDisk())
      ensures r == Done ==> Free(OnDisk(), path)
      ensures r == Err(IoError) ==> OnDisk() == old(OnDisk()) || (Free(OnDisk(), path) && marker == old(marker))
      ensures f.list && Free(old(OnDisk()), path) ==>
                r == Done && admins == old(admins) && marker == if f.dropMarker then None else old(marker)
      ensures admins != old(admins) ==>
                exists a :: admins == old(admins) - {a} && Registered(old(admins), path, a)
                            && old(MarkerOk()) && Provable(old(OnDisk()), a, old(marker).value.nonce)
      ensures tree != old(tree) ==> exists a :: Proven(old(OnDisk()), run, chunk, path, a)
      ensures r == Done
              <==> f.list && (Free(old(OnDisk()), path)
                              || (f.deleteAdmin && SomeDeletable(old(OnDisk()), run, chunk, path))
                              || (f.remove && f.dropMarker && SomeRemovable(old(OnDisk()), run, chunk, path)))
      ensures r == Err(IoError)
              <==> f.list && ((!f.deleteAdmin && SomeDeletable(old(OnDisk()), run, chunk, path))
                              || (f.remove && !f.dropMarker && SomeRemovable(old(OnDisk()), run, chunk, path)))
      ensures r == Err(GitError)
              <==> !f.list || (SomeProven(old(OnDisk()), run, chunk, path)
                               && !(f.remove && SomeRemovable(old(OnDisk()), run, chunk, path)))
      ensures r == Done ==>
                forall a :: DeletableByProof(old(OnDisk()), run, chunk, path, a) ==>
                  && tree == None && admins == old(admins) - {a}
                  && marker == if f.dropMarker then None else old(marker)
      ensures r == Done ==>
                forall a :: RemovableByProof(old(OnDisk()), run, chunk, path, a) ==>
                  tree == None && admins == old(admins) - {a} && marker == None
    {
      if !f.list { return Err(GitError); }
      var listed := Listed();
      if !listed && tree == None {
        if f.dropMarker {
          DropMarker();
        }
        return Done;
      }
      if tree == None {
        r := ClearMissing(f);
        return;
      }
      r := RemoveOwned(f);
    }

    /** Registered, its directory gone: only the admin dir proved ours goes, never a prune. */
    method ClearMissing(f: Faults) returns (r: Outcome)
      requires Valid() && tree == None && exists b :: Registered(admins, path, b)
      modifies this
      ensures Valid() && old(acts) <= acts && st0 == old(st0)
      ensures SomeDeletable(old(OnDisk()), run, chunk, path) ==> r == if f.deleteAdmin then Done else Err(IoError)
      ensures !SomeDeletable(old(OnDisk()), run, chunk, path) ==> r == Err(TempForeign)
      ensures r.Err? ==> OnDisk() == old(OnDisk())
      ensures r == Done ==> Free(OnDisk(), path) && marker == if f.dropMarker then None else old(marker)
      ensures r == Done ==>
                forall a :: DeletableByProof(old(OnDisk()), run, chunk, path, a) ==> admins == old(admins) - {a}
    {
      NoteMissing();
      var nonce := ReadMarker();
      if nonce == None { return Err(TempForeign); }
      var admin := OwnAdminDir(nonce.value);
      if admin == None { return Err(TempForeign); }
      assert DeletableByProof(old(OnDisk()), run, chunk, path, admin.value);
      NoteAdminProof(admin.value);
      if !f.deleteAdmin { return Err(IoError); }
      DeleteAdmin(admin.value);
      if f.dropMarker {
        DropMarker();
      }
      return Done;
    }

    /** The end of `create`: the nonce goes into the new worktree's gitdir, or the worktree, just
        added by this call and not yet provable, is removed directly. */
    method StoreNonce(nonce: string, name: string, f: Faults) returns (r: Outcome)
      requires Valid() && Pc() == Added(nonce) && tree == Some(Linked(name)) && Registered(admins, path, name)
      modifies this
      ensures Valid() && old(acts) <= acts && st0 == old(st0)
      ensures r == if f.locate && f.writeNonce then Done else Err(IoError)
      ensures r == Done ==>
                marker == old(marker) && tree == old(tree)
                 && admins == old(admins)[name := old(admins)[name].(nonce := Some(nonce))]
      ensures r.Err? ==> marker == (if f.dropMarker then None else old(marker))
      ensures r.Err? ==>
                tree == (if f.remove then None else old(tree))
                 && admins == (if f.remove then old(admins) - {name} else old(admins))
    {
      if f.locate {
        NoteGitdir(name);
        if f.writeNonce {
          WriteNonce(name, nonce);
          return Done;
        }
      }
      if f.remove {
        RemoveTree(name);
      }
      if f.dropMarker {
        DropMarker();
      }
      return Err(IoError);
    }

    /** `create`: marker, worktree, nonce. */
    method Create(nonce: string, name: string, made: nat, f: Faults) returns (r: Outcome)
      requires Valid()
      requires nonce != "" && nonce !in st.issued && Fresh(OnDisk(), nonce)  // 16 random bytes
      requires name !in admins                                                // git picks a new name
      requires made == st.next
      modifies this
      ensures Valid() && old(acts) <= acts && st0 == old(st0)
      ensures r == if !f.mkdir || !f.writeMarker then Err(IoError)
                   else if !f.add || !old(Addable()) then Err(GitError)
                   else if f.locate && f.writeNonce then Done else Err(IoError)
      ensures r == Done ==> marker == Some(Record(run, chunk, path, nonce)) && tree == Some(Linked(name))
                            && admins == old(admins)[name := Admin(path, Some(nonce), made)]
      ensures !f.mkdir || !f.writeMarker ==> OnDisk() == old(OnDisk())
      ensures r == Err(GitError) ==> tree == old(tree) && admins == old(admins)
      ensures r.Err? && f.dropMarker && f.mkdir && f.writeMarker ==> marker == None
      ensures r.Err? && f.remove ==> admins == old(admins) && (tree == old(tree) || tree == None)
      ensures f.mkdir && f.writeMarker && f.add && old(Addable()) && r.Err? ==>
                if f.remove then tree == None && admins == old(admins)
                else tree == Some(Linked(name)) && admins == old(admins)[name := Admin(path, None, made)]
      ensures f.mkdir && f.writeMarker && r.Err? && !f.dropMarker ==> marker == Some(Record(run, chunk, path, nonce))
    {
      if !f.mkdir || !f.writeMarker { return Err(IoError); }
      WriteMarker(nonce);
      var listed := Listed();
      if !f.add || listed || !(tree == None || tree == Some(Plain)) {
        if f.dropMarker {
          DropMarker();
        }
        return Err(GitError);
      }
      AddTree(name, made);
      assert Registered(admins, path, name);
      AddedAndBack(old(admins), name, Admin(path, None, made), nonce);
      r := StoreNonce(nonce, name, f);
    }

    /** git adds a worktree only at a path it does not register and that holds no checkout. */
    ghost predicate Addable()
      reads this
    {
      (tree == None || tree == Some(Plain)) && forall b :: !Registered(admins, path, b)
    }
  }

  /** What a successful `Create` leaves is what `RemoveOwned` proves - by this call and by no call
      of another run or chunk, even one whose name makes the same path (run `a-b`, chunk `c` and
      run `a`, chunk `b-c`). */
  lemma CreatedIsProven(run: string, chunk: string, path: string, nonce: string, name: string, made: nat,
                        before: map<string, Admin>, run': string, chunk': string, a: string)
    requires nonce != "" && name !in before
    ensures var d := Disk(Some(Record(run, chunk, path, nonce)), Some(Linked(name)),
                         before[name := Admin(path, Some(nonce), made)]);
            RemovableByProof(d, run', chunk', path, a) <==> run' == run && chunk' == chunk && a == name
  {
    var admins := before[name := Admin(path, Some(nonce), made)];
    assert Registered(admins, path, name);
  }

  /** The methods take machine steps only, so they keep the machine's invariant: whatever they
      removed or deleted, the protocol had added. */
  lemma {:induction false} CallsKeepInv(s: State, acts: seq<Act>, t: State)
    requires Inv(s) && Ran(s, acts, t)
    ensures Inv(t) && Undisturbed(s, acts)
    decreases |acts|
  {
    if acts != [] {
      assert !acts[0].Outside?;
      StepKeepsInv(s, acts[0]);
      CallsKeepInv(Next(s, acts[0]), acts[1..], t);
    }
  }

  lemma AddedAndBack(admins: map<string, Admin>, name: string, x: Admin, nonce: string)
    requires name !in admins
    ensures admins[name := x] - {name} == admins
    ensures admins[name := x][name := x.(nonce := Some(nonce))] == admins[name := x.(nonce := Some(nonce))]
  {
  }

  lemma NoneLeft(admins: map<string, Admin>, path: string, a: string)
    requires OneRegistration(admins, path) && Registered(admins, path, a)
    ensures forall b :: !Registered(admins - {a}, path, b)
  {
    forall b
      ensures !Registered(admins - {a}, path, b)
    {
      if Registered(admins - {a}, path, b) {
        assert Registered(admins, path, b);
      }
    }
  }

  lemma {:induction false} AppendStep(s: State, acts: seq<Act>, act: Act)
    requires Possible(s, acts) && Enabled(After(s, acts), act)
    ensures Possible(s, acts + [act]) && After(s, acts + [act]) == Next(After(s, acts), act)
    decreases |acts|
  {
    if acts == [] {
      assert [act][1..] == [];
    } else {
      AppendStep(Next(s, acts[0]), acts[1..], act);
      assert (acts + [act])[1..] == acts[1..] + [act];
    }
  }
}
