/** The windows of the ownership protocol: between a proof and the removal that relies on it.

    What outsiders do there decides. Creating directories and worktrees is harmless while one call at a
    time has a window open; replacing is not, nor is creating with two calls in their windows. A last
    theorem says exactly in which states some call can still hit a foreign worktree. */
module Windows {
  import opened Option
  import opened Ownership

  // ---------------------------------------------------------------------------------------
  // Outsiders that only create
  // ---------------------------------------------------------------------------------------

  ghost predicate OneWindow(s: State) {
    forall p, q :: p in s.procs && q in s.procs && Open(s.procs[p].pc) && Open(s.procs[q].pc) ==> p == q
  }

  /** Directories, worktrees, registrations and markers may appear; no worktree goes or is replaced. */
  ghost predicate OnlyCreates(s: State, d: Disk) {
    && (forall a :: a in s.disk.admins ==> a in d.admins && d.admins[a] == s.disk.admins[a])
    && (s.disk.tree.Some? && s.disk.tree.value.Linked? ==> d.tree == s.disk.tree)
  }

  /** While a call has a window open, outsiders only create; otherwise they do as they like. */
  ghost predicate Considerate(s: State, act: Act) {
    act.Outside? && (exists p :: p in s.procs && Open(s.procs[p].pc)) ==> OnlyCreates(s, act.disk)
  }

  ghost predicate ConsiderateRun(s: State, acts: seq<Act>)
    requires Possible(s, acts)
    decreases |acts|
  {
    acts != [] ==> Considerate(s, acts[0]) && ConsiderateRun(Next(s, acts[0]), acts[1..])
  }

  ghost predicate OneWindowAtATime(s: State, acts: seq<Act>)
    requires Possible(s, acts)
    decreases |acts|
  {
    OneWindow(s) && (acts != [] ==> OneWindowAtATime(Next(s, acts[0]), acts[1..]))
  }

  ghost predicate IsOurs(s: State, a: string) {
    a in s.disk.admins && s.disk.admins[a].made in s.ours
  }

  /** What a window holds on to: the checkout at the path is still linked to a worktree of ours, or the
      admin dir to be deleted is one. */
  ghost predicate HeldBy(s: State, pc: Pc) {
    match pc
    case ProvedAdmin(a) => IsOurs(s, a)
    case Located(_, a) => s.disk.tree == Some(Linked(a)) && IsOurs(s, a)
    case ProvedTree => s.disk.tree.Some? && s.disk.tree.value.Linked? && IsOurs(s, s.disk.tree.value.admin)
    case Added(_) => s.disk.tree.Some? && s.disk.tree.value.Linked? && IsOurs(s, s.disk.tree.value.admin)
    case _ => true
  }

  ghost predicate Held(s: State) {
    forall p :: p in s.procs ==> HeldBy(s, s.procs[p].pc)
  }

  lemma HeldIsSafe(s: State)
    requires Held(s)
    ensures WindowsSafe(s)
  {
    forall p | p in s.procs
      ensures WindowSafe(s, s.procs[p].pc)
    {
      assert HeldBy(s, s.procs[p].pc);
    }
  }

  lemma OwnStepHolds(s: State, act: Act)
    requires Inv(s) && Held(s) && Enabled(s, act) && !act.Outside? && OneWindow(s) && OneWindow(Next(s, act))
    ensures Held(Next(s, act))
  {
    var t := Next(s, act);
    forall p | p in t.procs
      ensures HeldBy(t, t.procs[p].pc)
    {
      if p != act.p {
        assert HeldBy(s, s.procs[p].pc);
        if Open(t.procs[p].pc) {
          OthersKeepOff(s, act, p);
        }
      } else {
        assert act.p in s.procs ==> HeldBy(s, s.procs[act.p].pc);
      }
    }
  }

  /** A call with no window open changes neither the checkout at the path nor an admin dir. */
  lemma OthersKeepOff(s: State, act: Act, p: nat)
    requires Enabled(s, act) && !act.Outside? && OneWindow(s) && OneWindow(Next(s, act))
    requires p in s.procs && Open(s.procs[p].pc) && act.p != p
    ensures Next(s, act).disk.tree == s.disk.tree && Next(s, act).disk.admins == s.disk.admins
    ensures Next(s, act).ours == s.ours
  {
    var t := Next(s, act);
    assert p in t.procs && t.procs[p] == s.procs[p];
    assert act.p in s.procs ==> !Open(s.procs[act.p].pc);
    assert act.p in t.procs && !Open(t.procs[act.p].pc);
  }

  lemma OutsideHolds(s: State, act: Act)
    requires Held(s) && Enabled(s, act) && act.Outside? && Considerate(s, act)
    ensures Held(Next(s, act))
  {
    var t := Next(s, act);
    forall p | p in t.procs
      ensures HeldBy(t, t.procs[p].pc)
    {
      assert HeldBy(s, s.procs[p].pc);
    }
  }

  lemma {:induction false} ConsiderateIsUndisturbed(s: State, acts: seq<Act>)
    requires Inv(s) && Held(s) && Possible(s, acts) && ConsiderateRun(s, acts) && OneWindowAtATime(s, acts)
    ensures Undisturbed(s, acts)
    decreases |acts|
  {
    if acts != [] {
      var t := Next(s, acts[0]);
      assert OneWindow(s) && OneWindow(t);
      if acts[0].Outside? {
        OutsideHolds(s, acts[0]);
      } else {
        OwnStepHolds(s, acts[0]);
      }
      HeldIsSafe(t);
      StepKeepsInv(s, acts[0]);
      ConsiderateIsUndisturbed(t, acts[1..]);
    }
  }

  /** Ownership over all runs: while one call at a time is between its proof and its removal, and outsiders
      only create meanwhile, everything force-removed or deleted was a worktree the protocol added -
      whatever else they do between the windows, and wherever calls crash. */
  lemma CreatingIsHarmless(s: State, acts: seq<Act>)
    requires Init(s) && Possible(s, acts) && ConsiderateRun(s, acts) && OneWindowAtATime(s, acts)
    ensures forall n :: n in After(s, acts).hits ==> n in After(s, acts).ours
  {
    ConsiderateIsUndisturbed(s, acts);
    OnlyOursRemoved(s, acts);
  }

  // ---------------------------------------------------------------------------------------
  // Exactly when a call can still hit a foreign worktree
  // ---------------------------------------------------------------------------------------

  ghost predicate Foreign(s: State, a: string) {
    a in s.disk.admins && s.disk.admins[a].made !in s.ours
  }

  /** The marker on disk carries the nonce and names a call that works at this path. */
  ghost predicate Readable(s: State, nonce: string) {
    && s.disk.marker.Some? && s.disk.marker.value.Record? && s.disk.marker.value.nonce == nonce
    && MarkerNames(s.disk.marker.value, s.disk.marker.value.run, s.disk.marker.value.chunk, s.path)
    && PathNames(s.path, s.disk.marker.value.run, s.disk.marker.value.chunk)
  }

  ghost predicate ReadableBy(s: State, p: nat, nonce: string)
    requires p in s.procs
  {
    && s.disk.marker.Some? && MarkerNames(s.disk.marker.value, s.procs[p].run, s.procs[p].chunk, s.path)
    && s.disk.marker.value.nonce == nonce
  }

  /** Some call can come to delete admin dir `a`, registered for the path, if it holds this nonce: a call saw
      the path missing and has read the nonce or still can; or the path is missing now and the marker can be
      read; or the checkout there is linked to `a` and the nonce was read or can be. */
  ghost predicate Claimable(s: State, a: string, nonce: string) {
    || (exists p :: p in s.procs && s.procs[p].pc == MissingMarker(nonce))
    || (exists p :: p in s.procs && s.procs[p].pc == Missing && ReadableBy(s, p, nonce))
    || (s.disk.tree == None && Readable(s, nonce))
    || (s.disk.tree == Some(Linked(a))
        && (Readable(s, nonce) || exists p :: p in s.procs && s.procs[p].pc == HasMarker(nonce)))
  }

  ghost predicate ForeignRegistered(s: State, a: string) {
    Foreign(s, a) && Registered(s.disk.admins, s.path, a)
  }

  ghost predicate RemovalsHarmless(s: State) {
    forall p :: p in s.procs && (s.procs[p].pc.ProvedTree? || s.procs[p].pc.Added? || s.procs[p].pc.Located?) ==>
      RemovalSafe(s)
  }

  ghost predicate DeletionsHarmless(s: State) {
    forall p :: p in s.procs && s.procs[p].pc.ProvedAdmin? ==> !Foreign(s, s.procs[p].pc.admin)
  }

  ghost predicate NoncesHarmless(s: State) {
    forall a :: ForeignRegistered(s, a) && s.disk.admins[a].nonce.Some? ==>
      !Claimable(s, a, s.disk.admins[a].nonce.value)
  }

  ghost predicate WritesHarmless(s: State) {
    forall p :: p in s.procs && s.procs[p].pc.Located? && ForeignRegistered(s, s.procs[p].pc.admin) ==>
      !Claimable(s, s.procs[p].pc.admin, s.procs[p].pc.nonce)
  }

  /** No open removal can take a foreign worktree, no open deletion a foreign admin dir, no call can claim a
      foreign registration of the path by the nonce it holds, nor by one a call is about to write into it. */
  ghost predicate Harmless(s: State) {
    RemovalsHarmless(s) && DeletionsHarmless(s) && NoncesHarmless(s) && WritesHarmless(s)
  }

  /** The step removes or deletes a worktree that is not ours. */
  ghost predicate StepHits(s: State, act: Act) {
    match act
    case RemoveTree(_, a) => Foreign(s, a)
    case DeleteAdmin(p) => p in s.procs && s.procs[p].pc.ProvedAdmin? && Foreign(s, s.procs[p].pc.admin)
    case _ => false
  }

  /** Some step of the run does. */
  ghost predicate Hits(s: State, acts: seq<Act>)
    requires Possible(s, acts)
    decreases |acts|
  {
    acts != [] && (StepHits(s, acts[0]) || Hits(Next(s, acts[0]), acts[1..]))
  }

  predicate NoOutsider(acts: seq<Act>) {
    forall i :: 0 <= i < |acts| ==> !acts[i].Outside?
  }

  /** Git keeps one registration per path, calls work at the path their names make, and markers and calls
      carry only nonces the protocol drew. Every step keeps this, an outsider's too. */
  ghost predicate Sane(s: State) {
    && OneRegistration(s.disk.admins, s.path)
    && (s.disk.marker.Some? && s.disk.marker.value.Record? ==> s.disk.marker.value.nonce in s.issued)
    && forall p :: p in s.procs ==>
         PcNonceIssued(s.procs[p].pc, s.issued) && PathNames(s.path, s.procs[p].run, s.procs[p].chunk)
  }

  ghost predicate Continuation(s: State, acts: seq<Act>) {
    Possible(s, acts) && NoOutsider(acts) && Hits(s, acts)
  }

  lemma SaneStays(s: State, act: Act)
    requires Sane(s) && Enabled(s, act)
    ensures Sane(Next(s, act))
  {
    OneRegistrationStays(s, act);
    CallsStaySane(s, act);
  }

  lemma OneRegistrationStays(s: State, act: Act)
    requires OneRegistration(s.disk.admins, s.path) && Enabled(s, act)
    ensures OneRegistration(Next(s, act).disk.admins, s.path)
  {
    var t := Next(s, act);
    if !act.Outside? {
      forall a, b | Registered(t.disk.admins, t.path, a) && Registered(t.disk.admins, t.path, b)
        ensures a == b
      {
        assert act.AddTree? || (Registered(s.disk.admins, s.path, a) && Registered(s.disk.admins, s.path, b));
        assert act.AddTree? ==> !Registered(s.disk.admins, s.path, a) && !Registered(s.disk.admins, s.path, b);
      }
    }
  }

  lemma CallsStaySane(s: State, act: Act)
    requires Sane(s) && Enabled(s, act)
    ensures var t := Next(s, act);
            forall p :: p in t.procs ==>
              PcNonceIssued(t.procs[p].pc, t.issued) && PathNames(t.path, t.procs[p].run, t.procs[p].chunk)
  {
    var t := Next(s, act);
    forall p | p in t.procs
      ensures PcNonceIssued(t.procs[p].pc, t.issued) && PathNames(t.path, t.procs[p].run, t.procs[p].chunk)
    {
      if act.Start? && p == act.p {
      } else {
        assert PathNames(s.path, s.procs[p].run, s.procs[p].chunk);
        NamesStay(s, act, p);
        NonceStaysIssued(s, act, p);
      }
    }
  }

  lemma NamesStay(s: State, act: Act, p: nat)
    requires Enabled(s, act) && !(act.Start? && p == act.p) && p in Next(s, act).procs
    ensures p in s.procs && Next(s, act).path == s.path
    ensures Next(s, act).procs[p].run == s.procs[p].run && Next(s, act).procs[p].chunk == s.procs[p].chunk
  {
  }

  lemma NonceStaysIssued(s: State, act: Act, p: nat)
    requires Sane(s) && Enabled(s, act) && p in s.procs && p in Next(s, act).procs
    ensures PcNonceIssued(Next(s, act).procs[p].pc, Next(s, act).issued)
  {
    assert PcNonceIssued(s.procs[p].pc, s.issued);
  }

  /** Steps that leave the disk alone, but for the marker. */
  predicate Reads(act: Act) {
    || act.Start? || act.SeeListed? || act.SeeMissing? || act.ReadMarker? || act.ProveTree? || act.ProveAdmin?
    || act.DropMarker? || act.Locate? || act.Crash?
  }

  /** No step but the writing of a new marker makes a registration claimable that was not. */
  lemma ClaimableBefore(s: State, act: Act, a: string, nonce: string)
    requires Sane(s) && Enabled(s, act) && Reads(act) && Claimable(Next(s, act), a, nonce)
    ensures Claimable(s, a, nonce)
  {
    var t := Next(s, act);
    if p :| p in t.procs && t.procs[p].pc == MissingMarker(nonce) {
      ReaderBefore(s, act, a, nonce, p);
    } else if p :| p in t.procs && t.procs[p].pc == Missing && ReadableBy(t, p, nonce) {
      WitnessBefore(s, act, a, nonce, p);
    } else if p :| p in t.procs && t.procs[p].pc == HasMarker(nonce) {
      HolderBefore(s, act, nonce, p);
      assert t.disk.tree == s.disk.tree;
    }
  }

  lemma ReaderBefore(s: State, act: Act, a: string, nonce: string, p: nat)
    requires Enabled(s, act) && Reads(act)
    requires p in Next(s, act).procs && Next(s, act).procs[p].pc == MissingMarker(nonce)
    ensures Claimable(s, a, nonce)
  {
    assert p in s.procs;
    if p == act.p && act.ReadMarker? {
      assert s.procs[p].pc == Missing && ReadableBy(s, p, nonce);
    } else {
      assert s.procs[p].pc == MissingMarker(nonce);
    }
  }

  lemma WitnessBefore(s: State, act: Act, a: string, nonce: string, p: nat)
    requires Sane(s) && Enabled(s, act) && Reads(act)
    requires p in Next(s, act).procs && Next(s, act).procs[p].pc == Missing && ReadableBy(Next(s, act), p, nonce)
    ensures Claimable(s, a, nonce)
  {
    assert p in s.procs && ReadableBy(s, p, nonce);
    if p == act.p && act.SeeMissing? {
      assert Readable(s, nonce) && s.disk.tree == None;
    } else {
      assert s.procs[p].pc == Missing;
    }
  }

  lemma HolderBefore(s: State, act: Act, nonce: string, p: nat)
    requires Sane(s) && Enabled(s, act) && Reads(act)
    requires p in Next(s, act).procs && Next(s, act).procs[p].pc == HasMarker(nonce)
    ensures Readable(s, nonce) || (p in s.procs && s.procs[p].pc == HasMarker(nonce))
  {
    if p == act.p && act.ReadMarker? {
      assert Readable(s, nonce);
    }
  }

  lemma ReadKeepsRemovals(s: State, act: Act)
    requires Sane(s) && Harmless(s) && Enabled(s, act) && Reads(act)
    ensures RemovalsHarmless(Next(s, act))
  {
    var t := Next(s, act);
    assert forall a :: Removable(t.disk, t.path, a) ==> Removable(s.disk, s.path, a) && (Ours(s, a) ==> Ours(t, a));
    forall p | p in t.procs && (t.procs[p].pc.ProvedTree? || t.procs[p].pc.Added? || t.procs[p].pc.Located?)
      ensures RemovalSafe(t)
    {
      if act.ProveTree? && p == act.p {
        ProofIsOfOurs(s, act.p, act.a);
      } else {
        assert p in s.procs && (s.procs[p].pc.ProvedTree? || s.procs[p].pc.Added? || s.procs[p].pc.Located?);
      }
    }
  }

  lemma ReadKeepsDeletions(s: State, act: Act)
    requires Sane(s) && Harmless(s) && Enabled(s, act) && Reads(act)
    ensures DeletionsHarmless(Next(s, act))
  {
    var t := Next(s, act);
    forall p | p in t.procs && t.procs[p].pc.ProvedAdmin?
      ensures !Foreign(t, t.procs[p].pc.admin)
    {
      if act.ProveAdmin? && p == act.p {
        assert Claimable(s, act.a, s.procs[p].pc.nonce);
        assert !ForeignRegistered(s, act.a);
      }
    }
  }

  lemma ReadKeepsNonces(s: State, act: Act)
    requires Sane(s) && Harmless(s) && Enabled(s, act) && Reads(act)
    ensures NoncesHarmless(Next(s, act))
  {
    var t := Next(s, act);
    forall a | ForeignRegistered(t, a) && t.disk.admins[a].nonce.Some?
      ensures !Claimable(t, a, t.disk.admins[a].nonce.value)
    {
      assert ForeignRegistered(s, a);
      if Claimable(t, a, t.disk.admins[a].nonce.value) {
        ClaimableBefore(s, act, a, t.disk.admins[a].nonce.value);
      }
    }
  }

  lemma ReadKeepsWrites(s: State, act: Act)
    requires Sane(s) && Harmless(s) && Enabled(s, act) && Reads(act)
    ensures WritesHarmless(Next(s, act))
  {
    var t := Next(s, act);
    forall p | p in t.procs && t.procs[p].pc.Located? && ForeignRegistered(t, t.procs[p].pc.admin)
      ensures !Claimable(t, t.procs[p].pc.admin, t.procs[p].pc.nonce)
    {
      assert ForeignRegistered(s, t.procs[p].pc.admin);
      if act.Locate? && p == act.p {
        LocatedIsOurs(s, p, act.a);
        assert false;
      }
      if Claimable(t, t.procs[p].pc.admin, t.procs[p].pc.nonce) {
        ClaimableBefore(s, act, t.procs[p].pc.admin, t.procs[p].pc.nonce);
      }
    }
  }

  lemma ReadStaysHarmless(s: State, act: Act)
    requires Sane(s) && Harmless(s) && Enabled(s, act) && Reads(act)
    ensures Harmless(Next(s, act))
  {
    ReadKeepsRemovals(s, act);
    ReadKeepsDeletions(s, act);
    ReadKeepsNonces(s, act);
    ReadKeepsWrites(s, act);
  }

  /** What a proved checkout lets a removal take is ours. */
  lemma ProofIsOfOurs(s: State, p: nat, a: string)
    requires Harmless(s) && Enabled(s, ProveTree(p, a))
    ensures RemovalSafe(s)
  {
    assert Claimable(s, a, s.procs[p].pc.nonce);
    forall b | Removable(s.disk, s.path, b)
      ensures Ours(s, b)
    {
      assert b == a;
      assert !ForeignRegistered(s, a);
    }
  }

  lemma ForeignLinkIsUnsafe(s: State, a: string)
    requires ForeignRegistered(s, a) && s.disk.tree == Some(Linked(a))
    ensures !RemovalSafe(s)
  {
    assert Removable(s.disk, s.path, a);
  }

  /** Between its `worktree add` and the nonce a call never finds a foreign registration behind the path. */
  lemma LocatedIsOurs(s: State, p: nat, a: string)
    requires Harmless(s) && Enabled(s, Locate(p, a))
    ensures !ForeignRegistered(s, a)
  {
    if ForeignRegistered(s, a) {
      ForeignLinkIsUnsafe(s, a);
    }
  }

  /** A fresh nonce is no registration's. */
  lemma ClaimableBeforeMarker(s: State, p: nat, nonce: string, a: string, n: string)
    requires Enabled(s, WriteMarker(p, nonce)) && n != nonce && Claimable(Next(s, WriteMarker(p, nonce)), a, n)
    ensures Claimable(s, a, n)
  {
    var t := Next(s, WriteMarker(p, nonce));
    if q :| q in t.procs && t.procs[q].pc == MissingMarker(n) {
      assert q in s.procs && s.procs[q].pc == MissingMarker(n);
    } else if q :| q in t.procs && t.procs[q].pc == HasMarker(n) {
      assert q in s.procs && s.procs[q].pc == HasMarker(n);
    }
  }

  lemma MarkerStaysHarmless(s: State, p: nat, nonce: string)
    requires Sane(s) && Harmless(s) && Enabled(s, WriteMarker(p, nonce))
    ensures Harmless(Next(s, WriteMarker(p, nonce)))
  {
    var t := Next(s, WriteMarker(p, nonce));
    assert forall a :: Removable(t.disk, t.path, a) <==> Removable(s.disk, s.path, a);
    forall a | ForeignRegistered(t, a) && t.disk.admins[a].nonce.Some?
      ensures !Claimable(t, a, t.disk.admins[a].nonce.value)
    {
      assert ForeignRegistered(s, a);
      if Claimable(t, a, t.disk.admins[a].nonce.value) {
        ClaimableBeforeMarker(s, p, nonce, a, t.disk.admins[a].nonce.value);
      }
    }
    forall q | q in t.procs && t.procs[q].pc.Located? && ForeignRegistered(t, t.procs[q].pc.admin)
      ensures !Claimable(t, t.procs[q].pc.admin, t.procs[q].pc.nonce)
    {
      assert PcNonceIssued(s.procs[q].pc, s.issued);
      assert ForeignRegistered(s, s.procs[q].pc.admin);
      if Claimable(t, t.procs[q].pc.admin, t.procs[q].pc.nonce) {
        ClaimableBeforeMarker(s, p, nonce, t.procs[q].pc.admin, t.procs[q].pc.nonce);
      }
    }
  }

  /** After a removal the path is registered no more; what other deletions leave was there before. */
  lemma ShrinkStaysHarmless(s: State, act: Act, a: string)
    requires Sane(s) && Harmless(s) && Enabled(s, act)
    requires (act.RemoveTree? && act.a == a) || (act.DeleteAdmin? && s.procs[act.p].pc.admin == a)
    ensures Harmless(Next(s, act)) && !StepHits(s, act)
  {
    var t := Next(s, act);
    assert t.disk.admins == s.disk.admins - {a} && t.ours == s.ours;
    forall b | Removable(t.disk, t.path, b)
      ensures Removable(s.disk, s.path, b)
    {
      assert Registered(s.disk.admins, s.path, b);
      assert act.RemoveTree? ==> Registered(s.disk.admins, s.path, a);
    }
    forall b | ForeignRegistered(t, b)
      ensures ForeignRegistered(s, b) && t.disk.admins[b] == s.disk.admins[b] && act.DeleteAdmin?
    {
      assert Registered(s.disk.admins, s.path, b);
      assert act.RemoveTree? ==> Registered(s.disk.admins, s.path, a);
    }
    forall b, n | act.DeleteAdmin? && Claimable(t, b, n)
      ensures Claimable(s, b, n)
    {
      ClaimableBeforeDeletion(s, act.p, b, n);
    }
    forall q | q in t.procs && q != act.p
      ensures t.procs[q] == s.procs[q]
    {
    }
    if act.RemoveTree? {
      assert RemovalSafe(s) && Ours(s, a);
    }
  }

  lemma ClaimableBeforeDeletion(s: State, p: nat, a: string, nonce: string)
    requires Enabled(s, DeleteAdmin(p)) && Claimable(Next(s, DeleteAdmin(p)), a, nonce)
    ensures Claimable(s, a, nonce)
  {
    var t := Next(s, DeleteAdmin(p));
    if q :| q in t.procs && t.procs[q].pc == MissingMarker(nonce) {
      assert s.procs[q].pc == MissingMarker(nonce);
    } else if q :| q in t.procs && t.procs[q].pc == Missing && ReadableBy(t, q, nonce) {
      assert s.procs[q].pc == Missing && ReadableBy(s, q, nonce);
    } else if q :| q in t.procs && t.procs[q].pc == HasMarker(nonce) {
      assert s.procs[q].pc == HasMarker(nonce);
    }
  }

  lemma AddStaysHarmless(s: State, p: nat, a: string)
    requires Sane(s) && Harmless(s) && Enabled(s, AddTree(p, a))
    ensures Harmless(Next(s, AddTree(p, a)))
  {
    var t := Next(s, AddTree(p, a));
    forall b | Registered(t.disk.admins, t.path, b)
      ensures b == a && !Foreign(t, b)
    {
      assert !Registered(s.disk.admins, s.path, b);
    }
    forall q | q in t.procs && t.procs[q].pc.ProvedAdmin?
      ensures !Foreign(t, t.procs[q].pc.admin)
    {
      assert !Foreign(s, s.procs[q].pc.admin);
    }
  }

  lemma ClaimableBeforeNonce(s: State, p: nat, a: string, nonce: string)
    requires Enabled(s, WriteNonce(p)) && Claimable(Next(s, WriteNonce(p)), a, nonce)
    ensures Claimable(s, a, nonce)
  {
    var t := Next(s, WriteNonce(p));
    if q :| q in t.procs && t.procs[q].pc == MissingMarker(nonce) {
      assert s.procs[q].pc == MissingMarker(nonce);
    } else if q :| q in t.procs && t.procs[q].pc == Missing && ReadableBy(t, q, nonce) {
      assert s.procs[q].pc == Missing && ReadableBy(s, q, nonce);
    } else if q :| q in t.procs && t.procs[q].pc == HasMarker(nonce) {
      assert s.procs[q].pc == HasMarker(nonce);
    }
  }

  lemma NonceStaysHarmless(s: State, p: nat)
    requires Sane(s) && Harmless(s) && Enabled(s, WriteNonce(p))
    ensures Harmless(Next(s, WriteNonce(p)))
  {
    var t := Next(s, WriteNonce(p));
    var pc := s.procs[p].pc;
    forall b
      ensures Registered(t.disk.admins, t.path, b) <==> Registered(s.disk.admins, s.path, b)
      ensures Foreign(t, b) <==> Foreign(s, b)
    {
    }
    assert forall b :: Removable(t.disk, t.path, b) <==> Removable(s.disk, s.path, b);
    forall b, n | Claimable(t, b, n)
      ensures Claimable(s, b, n)
    {
      ClaimableBeforeNonce(s, p, b, n);
    }
    forall b | ForeignRegistered(t, b) && t.disk.admins[b].nonce.Some?
      ensures !Claimable(t, b, t.disk.admins[b].nonce.value)
    {
      assert ForeignRegistered(s, b);
      if b != pc.admin {
        assert t.disk.admins[b] == s.disk.admins[b];
      }
    }
  }

  /** No step of a call hits a foreign worktree in a harmless state, and none leads out of these states. */
  lemma HarmlessStays(s: State, act: Act)
    requires Sane(s) && Harmless(s) && Enabled(s, act) && !act.Outside?
    ensures Harmless(Next(s, act)) && !StepHits(s, act)
  {
    match act {
      case WriteMarker(p, nonce) => MarkerStaysHarmless(s, p, nonce);
      case AddTree(p, a) => AddStaysHarmless(s, p, a);
      case WriteNonce(p) => NonceStaysHarmless(s, p);
      case RemoveTree(p, a) => ShrinkStaysHarmless(s, act, a);
      case DeleteAdmin(p) => ShrinkStaysHarmless(s, act, s.procs[p].pc.admin);
      case _ => ReadStaysHarmless(s, act);
    }
  }

  lemma {:induction false} HarmlessNeverHits(s: State, acts: seq<Act>)
    requires Sane(s) && Harmless(s) && Possible(s, acts) && NoOutsider(acts)
    ensures !Hits(s, acts)
    decreases |acts|
  {
    if acts != [] {
      SaneStays(s, acts[0]);
      HarmlessStays(s, acts[0]);
      assert forall i :: 0 <= i < |acts[1..]| ==> acts[1..][i] == acts[i + 1];
      HarmlessNeverHits(Next(s, acts[0]), acts[1..]);
    }
  }

  lemma Then(s: State, act: Act, rest: seq<Act>)
    requires Enabled(s, act) && !act.Outside? && Continuation(Next(s, act), rest)
    ensures Continuation(s, [act] + rest)
  {
    assert ([act] + rest)[1..] == rest;
  }

  lemma Now(s: State, act: Act)
    requires Enabled(s, act) && !act.Outside? && StepHits(s, act)
    ensures Continuation(s, [act])
  {
  }

  /** A call that saw the path missing and has read the nonce deletes the admin dir, whatever stands at the
      path by then. */
  lemma ClaimedByReader(s: State, a: string, p: nat) returns (acts: seq<Act>)
    requires ForeignRegistered(s, a) && p in s.procs && s.procs[p].pc.MissingMarker?
    requires s.disk.admins[a].nonce == Some(s.procs[p].pc.nonce)
    ensures Continuation(s, acts)
  {
    var t := Next(s, ProveAdmin(p, a));
    acts := [DeleteAdmin(p)];
    Now(t, DeleteAdmin(p));
    Then(s, ProveAdmin(p, a), acts);
    acts := [ProveAdmin(p, a)] + acts;
  }

  lemma ClaimedByWitness(s: State, a: string, p: nat, nonce: string) returns (acts: seq<Act>)
    requires ForeignRegistered(s, a) && s.disk.admins[a].nonce == Some(nonce)
    requires p in s.procs && s.procs[p].pc == Missing && ReadableBy(s, p, nonce)
    ensures Continuation(s, acts)
  {
    var t := Next(s, ReadMarker(p));
    assert ForeignRegistered(t, a);
    acts := ClaimedByReader(t, a, p);
    Then(s, ReadMarker(p), acts);
    acts := [ReadMarker(p)] + acts;
  }

  /** The next call finds the path registered and missing. */
  lemma ClaimedByNext(s: State, a: string, nonce: string) returns (acts: seq<Act>)
    requires ForeignRegistered(s, a) && s.disk.admins[a].nonce == Some(nonce)
    requires s.disk.tree == None && Readable(s, nonce)
    ensures Continuation(s, acts)
  {
    var m := s.disk.marker.value;
    var s1 := Next(s, Start(0, m.run, m.chunk));
    assert Registered(s1.disk.admins, s1.path, a);
    var s2 := Next(s1, SeeListed(0));
    var s3 := Next(s2, SeeMissing(0));
    assert ForeignRegistered(s3, a) && ReadableBy(s3, 0, nonce);
    acts := ClaimedByWitness(s3, a, 0, nonce);
    Then(s2, SeeMissing(0), acts);
    acts := [SeeMissing(0)] + acts;
    Then(s1, SeeListed(0), acts);
    acts := [SeeListed(0)] + acts;
    Then(s, Start(0, m.run, m.chunk), acts);
    acts := [Start(0, m.run, m.chunk)] + acts;
  }

  /** The checkout at the path is linked to it: its proof succeeds, and git removes it. */
  lemma ClaimedByProof(s: State, a: string, p: nat) returns (acts: seq<Act>)
    requires ForeignRegistered(s, a) && s.disk.tree == Some(Linked(a))
    requires p in s.procs && s.procs[p].pc.HasMarker? && s.disk.admins[a].nonce == Some(s.procs[p].pc.nonce)
    ensures Continuation(s, acts)
  {
    var t := Next(s, ProveTree(p, a));
    assert Removable(t.disk, t.path, a);
    acts := [RemoveTree(p, a)];
    Now(t, RemoveTree(p, a));
    Then(s, ProveTree(p, a), acts);
    acts := [ProveTree(p, a)] + acts;
  }

  lemma ClaimedByNextProof(s: State, a: string, nonce: string) returns (acts: seq<Act>)
    requires ForeignRegistered(s, a) && s.disk.admins[a].nonce == Some(nonce)
    requires s.disk.tree == Some(Linked(a)) && Readable(s, nonce)
    ensures Continuation(s, acts)
  {
    var m := s.disk.marker.value;
    var s1 := Next(s, Start(0, m.run, m.chunk));
    assert Registered(s1.disk.admins, s1.path, a);
    var s2 := Next(s1, SeeListed(0));
    var s3 := Next(s2, ReadMarker(0));
    assert ForeignRegistered(s3, a);
    acts := ClaimedByProof(s3, a, 0);
    Then(s2, ReadMarker(0), acts);
    acts := [ReadMarker(0)] + acts;
    Then(s1, SeeListed(0), acts);
    acts := [SeeListed(0)] + acts;
    Then(s, Start(0, m.run, m.chunk), acts);
    acts := [Start(0, m.run, m.chunk)] + acts;
  }

  /** A foreign registration that is claimable is claimed, by steps the code takes in this order. */
  lemma Claimed(s: State, a: string, nonce: string) returns (acts: seq<Act>)
    requires ForeignRegistered(s, a) && s.disk.admins[a].nonce == Some(nonce) && Claimable(s, a, nonce)
    ensures Continuation(s, acts)
  {
    if p :| p in s.procs && s.procs[p].pc == MissingMarker(nonce) {
      acts := ClaimedByReader(s, a, p);
    } else if p :| p in s.procs && s.procs[p].pc == Missing && ReadableBy(s, p, nonce) {
      acts := ClaimedByWitness(s, a, p, nonce);
    } else if s.disk.tree == None {
      acts := ClaimedByNext(s, a, nonce);
    } else if p :| p in s.procs && s.procs[p].pc == HasMarker(nonce) {
      acts := ClaimedByProof(s, a, p);
    } else {
      acts := ClaimedByNextProof(s, a, nonce);
    }
  }

  /** Once the nonce is written the registration is as claimable as before. */
  lemma ClaimedAfterWrite(s: State, p: nat) returns (acts: seq<Act>)
    requires p in s.procs && s.procs[p].pc.Located? && ForeignRegistered(s, s.procs[p].pc.admin)
    requires Claimable(s, s.procs[p].pc.admin, s.procs[p].pc.nonce)
    ensures Continuation(s, acts)
  {
    var b, nonce := s.procs[p].pc.admin, s.procs[p].pc.nonce;
    var t := Next(s, WriteNonce(p));
    assert ForeignRegistered(t, b);
    assert Claimable(t, b, nonce) by {
      if q :| q in s.procs && s.procs[q].pc == MissingMarker(nonce) {
        assert t.procs[q].pc == MissingMarker(nonce);
      } else if q :| q in s.procs && s.procs[q].pc == Missing && ReadableBy(s, q, nonce) {
        assert t.procs[q].pc == Missing && ReadableBy(t, q, nonce);
      } else if q :| q in s.procs && s.procs[q].pc == HasMarker(nonce) {
        assert t.procs[q].pc == HasMarker(nonce);
      }
    }
    acts := Claimed(t, b, nonce);
    Then(s, WriteNonce(p), acts);
    acts := [WriteNonce(p)] + acts;
  }

  lemma HarmFollows(s: State) returns (acts: seq<Act>)
    requires !Harmless(s)
    ensures Continuation(s, acts)
  {
    if !RemovalsHarmless(s) {
      var p, a :| p in s.procs && (s.procs[p].pc.ProvedTree? || s.procs[p].pc.Added? || s.procs[p].pc.Located?)
                  && Removable(s.disk, s.path, a) && !Ours(s, a);
      acts := [RemoveTree(p, a)];
      Now(s, RemoveTree(p, a));
    } else if !DeletionsHarmless(s) {
      var p :| p in s.procs && s.procs[p].pc.ProvedAdmin? && Foreign(s, s.procs[p].pc.admin);
      acts := [DeleteAdmin(p)];
      Now(s, DeleteAdmin(p));
    } else if !NoncesHarmless(s) {
      var a :| ForeignRegistered(s, a) && s.disk.admins[a].nonce.Some?
               && Claimable(s, a, s.disk.admins[a].nonce.value);
      acts := Claimed(s, a, s.disk.admins[a].nonce.value);
    } else {
      var p :| p in s.procs && s.procs[p].pc.Located? && ForeignRegistered(s, s.procs[p].pc.admin)
               && Claimable(s, s.procs[p].pc.admin, s.procs[p].pc.nonce);
      acts := ClaimedAfterWrite(s, p);
    }
  }

  /** Exactly then: with no further outside step some continuation of the calls removes or deletes a foreign
      worktree, if and only if the state is not harmless. */
  lemma HarmExactly(s: State)
    requires Sane(s)
    ensures (exists acts :: Continuation(s, acts)) <==> !Harmless(s)
  {
    if !Harmless(s) {
      var acts := HarmFollows(s);
    } else if acts :| Continuation(s, acts) {
      HarmlessNeverHits(s, acts);
      assert false;
    }
  }

  /** With a plain directory at the path, no window open and no call that saw the path missing, nothing can
      be hit, whatever is registered and whatever the marker says: every removal is refused. */
  lemma PlainDirectoryIsHarmless(s: State)
    requires s.disk.tree == Some(Plain)
    requires forall p :: p in s.procs ==>
               !Open(s.procs[p].pc) && !s.procs[p].pc.Missing? && !s.procs[p].pc.MissingMarker?
    ensures Harmless(s)
  {
  }

  // ---------------------------------------------------------------------------------------
  // Runs that show the conditions are needed
  // ---------------------------------------------------------------------------------------

  /** The names in the example run: any call and its temp path, any nonce, any two admin dirs. */
  datatype Names = Names(run: string, chunk: string, path: string, nonce: string, mine: string, other: string)

  predicate ValidNames(e: Names) {
    e.nonce != "" && PathNames(e.path, e.run, e.chunk)
  }

  function Before(e: Names, procs: map<nat, Proc>): State {
    State(e.path, Disk(None, None, map[]), procs, {}, {}, 0, [])
  }

  function MarkerOf(e: Names): Option<Marker> {
    Some(Record(e.run, e.chunk, e.path, e.nonce))
  }

  function MarkerOnly(e: Names): State {
    State(e.path, Disk(MarkerOf(e), None, map[]), map[0 := Proc(e.run, e.chunk, Marked(e.nonce))], {}, {e.nonce}, 0, [])
  }

  function Mine(e: Names, nonce: Option<string>): Disk {
    Disk(MarkerOf(e), Some(Linked(e.mine)), map[e.mine := Admin(e.path, nonce, 0)])
  }

  function Swapped(e: Names): Disk {
    Disk(None, Some(Linked(e.other)), map[e.other := Admin(e.path, None, 7)])
  }

  function With(e: Names, d: Disk, pc: Pc, hits: seq<nat>): State {
    State(e.path, d, map[0 := Proc(e.run, e.chunk, pc)], {0}, {e.nonce}, 1, hits)
  }

  ghost predicate Step(s: State, act: Act, t: State) {
    Enabled(s, act) && Next(s, act) == t
  }

  lemma StartSteps(e: Names)
    requires ValidNames(e)
    ensures Step(Before(e, map[]), Start(0, e.run, e.chunk), Before(e, map[0 := Proc(e.run, e.chunk, Idle)]))
    ensures Step(Before(e, map[0 := Proc(e.run, e.chunk, Idle)]), WriteMarker(0, e.nonce), MarkerOnly(e))
  {
  }

  lemma CreationSteps(e: Names)
    requires ValidNames(e)
    ensures Step(MarkerOnly(e), AddTree(0, e.mine), With(e, Mine(e, None), Added(e.nonce), []))
    ensures Step(With(e, Mine(e, None), Added(e.nonce), []), Locate(0, e.mine),
                 With(e, Mine(e, None), Located(e.nonce, e.mine), []))
  {
  }

  lemma ProofSteps(e: Names)
    requires ValidNames(e)
    ensures Step(With(e, Mine(e, None), Located(e.nonce, e.mine), []), WriteNonce(0),
                 With(e, Mine(e, Some(e.nonce)), Idle, []))
    ensures Step(With(e, Mine(e, Some(e.nonce)), Idle, []), ReadMarker(0),
                 With(e, Mine(e, Some(e.nonce)), HasMarker(e.nonce), []))
    ensures Step(With(e, Mine(e, Some(e.nonce)), HasMarker(e.nonce), []), ProveTree(0, e.mine),
                 With(e, Mine(e, Some(e.nonce)), ProvedTree, []))
  {
  }

  /** A call creates its worktree and, later, proves it. */
  lemma CreatedAndProved(e: Names, rest: seq<Act>) returns (acts: seq<Act>)
    requires ValidNames(e) && Possible(With(e, Mine(e, Some(e.nonce)), ProvedTree, []), rest)
    ensures Possible(Before(e, map[]), acts)
    ensures After(Before(e, map[]), acts) == After(With(e, Mine(e, Some(e.nonce)), ProvedTree, []), rest)
    ensures ConsiderateRun(With(e, Mine(e, Some(e.nonce)), ProvedTree, []), rest) ==>
              ConsiderateRun(Before(e, map[]), acts)
  {
    StartSteps(e);
    CreationSteps(e);
    ProofSteps(e);
    var held := Mine(e, Some(e.nonce));
    acts := Leads(With(e, held, HasMarker(e.nonce), []), ProveTree(0, e.mine), With(e, held, ProvedTree, []), rest);
    acts := Leads(With(e, held, Idle, []), ReadMarker(0), With(e, held, HasMarker(e.nonce), []), acts);
    acts := Leads(With(e, Mine(e, None), Located(e.nonce, e.mine), []), WriteNonce(0), With(e, held, Idle, []), acts);
    acts := Leads(With(e, Mine(e, None), Added(e.nonce), []), Locate(0, e.mine),
                  With(e, Mine(e, None), Located(e.nonce, e.mine), []), acts);
    acts := Leads(MarkerOnly(e), AddTree(0, e.mine), With(e, Mine(e, None), Added(e.nonce), []), acts);
    acts := Leads(Before(e, map[0 := Proc(e.run, e.chunk, Idle)]), WriteMarker(0, e.nonce), MarkerOnly(e), acts);
    acts := Leads(Before(e, map[]), Start(0, e.run, e.chunk), Before(e, map[0 := Proc(e.run, e.chunk, Idle)]), acts);
  }

  lemma SwapStep(e: Names)
    requires ValidNames(e)
    ensures Step(With(e, Mine(e, Some(e.nonce)), ProvedTree, []), Outside(Swapped(e)),
                 With(e, Swapped(e), ProvedTree, []))
  {
  }

  lemma SwappedRemoval(e: Names)
    ensures Step(With(e, Swapped(e), ProvedTree, []), RemoveTree(0, e.other),
                 With(e, Disk(None, None, map[]), Idle, [7]))
  {
    assert Swapped(e).admins - {e.other} == map[];
  }

  /** Creating only is needed: whatever the names, an outsider can swap the worktree between the proof and
      `worktree remove --force`, and the removal hits the outsider's. */
  lemma SwapBetweenProofAndRemoval(e: Names) returns (acts: seq<Act>)
    requires ValidNames(e)
    ensures var s := Before(e, map[]);
            Init(s) && Possible(s, acts) && After(s, acts).hits == [7] && 7 !in After(s, acts).ours
  {
    var end := With(e, Disk(None, None, map[]), Idle, [7]);
    var proved := With(e, Mine(e, Some(e.nonce)), ProvedTree, []);
    SwapStep(e);
    SwappedRemoval(e);
    acts := Leads(With(e, Swapped(e), ProvedTree, []), RemoveTree(0, e.other), end, []);
    acts := Leads(proved, Outside(Swapped(e)), With(e, Swapped(e), ProvedTree, []), acts);
    acts := CreatedAndProved(e, acts);
  }

  lemma Leads(s: State, act: Act, t: State, rest: seq<Act>) returns (acts: seq<Act>)
    requires Step(s, act, t) && Possible(t, rest)
    ensures Possible(s, acts) && After(s, acts) == After(t, rest)
    ensures Considerate(s, act) && ConsiderateRun(t, rest) ==> ConsiderateRun(s, acts)
  {
    acts := [act] + rest;
    assert acts[1..] == rest;
  }

  // ---------------------------------------------------------------------------------------
  // Two windows at once
  // ---------------------------------------------------------------------------------------

  function Two(e: Names, d: Disk, first: Pc, second: Pc, hits: seq<nat>): State {
    State(e.path, d, map[0 := Proc(e.run, e.chunk, first), 1 := Proc(e.run, e.chunk, second)], {0}, {e.nonce}, 1, hits)
  }

  /** What an outsider creates at the free path. */
  function Created(e: Names): Disk {
    Disk(None, Some(Linked(e.other)), map[e.other := Admin(e.path, None, 7)])
  }

  function Empty(): Disk {
    Disk(None, None, map[])
  }

  lemma SecondProof(e: Names)
    requires ValidNames(e)
    ensures var held := Mine(e, Some(e.nonce));
            && Step(With(e, held, ProvedTree, []), Start(1, e.run, e.chunk), Two(e, held, ProvedTree, Idle, []))
            && Step(Two(e, held, ProvedTree, Idle, []), ReadMarker(1), Two(e, held, ProvedTree, HasMarker(e.nonce), []))
            && Step(Two(e, held, ProvedTree, HasMarker(e.nonce), []), ProveTree(1, e.mine),
                    Two(e, held, ProvedTree, ProvedTree, []))
  {
  }

  lemma FirstRemoval(e: Names)
    requires ValidNames(e)
    ensures var held := Mine(e, Some(e.nonce));
            var gone := held.(tree := None, admins := map[]);
            && Step(Two(e, held, ProvedTree, ProvedTree, []), RemoveTree(0, e.mine),
                    Two(e, gone, Idle, ProvedTree, [0]))
            && Step(Two(e, gone, Idle, ProvedTree, [0]), DropMarker(0), Two(e, Empty(), Idle, ProvedTree, [0]))
  {
    var held := Mine(e, Some(e.nonce));
    assert held.admins - {e.mine} == map[];
  }

  lemma SecondRemoval(e: Names)
    requires ValidNames(e)
    ensures Step(Two(e, Empty(), Idle, ProvedTree, [0]), Outside(Created(e)), Two(e, Created(e), Idle, ProvedTree, [0]))
    ensures OnlyCreates(Two(e, Empty(), Idle, ProvedTree, [0]), Created(e))
    ensures Step(Two(e, Created(e), Idle, ProvedTree, [0]), RemoveTree(1, e.other), Two(e, Empty(), Idle, Idle, [0, 7]))
  {
    assert Created(e).admins - {e.other} == map[];
  }

  /** One window at a time is needed. Two calls for one run and chunk, from two checkouts of the repository
      with a lock each, prove the same worktree; one removes it, an outsider creates its own at the free
      path, and the other call removes that. The outsider only created. */
  lemma TwoWindowsRace(e: Names) returns (acts: seq<Act>)
    requires ValidNames(e)
    ensures var s := Before(e, map[]);
            && Init(s) && Possible(s, acts) && After(s, acts).hits == [0, 7] && 7 !in After(s, acts).ours
            && ConsiderateRun(s, acts)
  {
    var held := Mine(e, Some(e.nonce));
    var gone := held.(tree := None, admins := map[]);
    SecondProof(e);
    FirstRemoval(e);
    SecondRemoval(e);
    acts := Leads(Two(e, Created(e), Idle, ProvedTree, [0]), RemoveTree(1, e.other),
                  Two(e, Empty(), Idle, Idle, [0, 7]), []);
    acts := Leads(Two(e, Empty(), Idle, ProvedTree, [0]), Outside(Created(e)),
                  Two(e, Created(e), Idle, ProvedTree, [0]), acts);
    acts := Leads(Two(e, gone, Idle, ProvedTree, [0]), DropMarker(0), Two(e, Empty(), Idle, ProvedTree, [0]), acts);
    acts := Leads(Two(e, held, ProvedTree, ProvedTree, []), RemoveTree(0, e.mine),
                  Two(e, gone, Idle, ProvedTree, [0]), acts);
    acts := Leads(Two(e, held, ProvedTree, HasMarker(e.nonce), []), ProveTree(1, e.mine),
                  Two(e, held, ProvedTree, ProvedTree, []), acts);
    acts := Leads(Two(e, held, ProvedTree, Idle, []), ReadMarker(1),
                  Two(e, held, ProvedTree, HasMarker(e.nonce), []), acts);
    acts := Leads(With(e, held, ProvedTree, []), Start(1, e.run, e.chunk), Two(e, held, ProvedTree, Idle, []), acts);
    acts := CreatedAndProved(e, acts);
  }
}
