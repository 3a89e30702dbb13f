/** The tree transaction of `lets integrate`: a patch applied to the caller's index and worktree, verified
    against the picked tree and reversed on a mismatch, and `--revert`, which undoes it later. Trees are
    maps from path to content and a patch is an old and a new side per path. */
module Patch {
  import opened Option

  type Path = string
  type Tree = map<Path, string>

  /** The caller's checkout: the tree of HEAD, the index, and every file of the worktree. */
  datatype Snap = Snap(head: Tree, index: Tree, work: Tree)

  datatype Change = Change(was: Option<string>, now: Option<string>)

  type Diff = map<Path, Change>

  function At(t: Tree, p: Path): Option<string> {
    if p in t then Some(t[p]) else None
  }

  function Between(a: Tree, b: Tree): Diff {
    map p | p in a.Keys + b.Keys && At(a, p) != At(b, p) :: Change(At(a, p), At(b, p))
  }

  function Reverse(d: Diff): Diff {
    map p | p in d :: Change(d[p].now, d[p].was)
  }

  function Patched(t: Tree, d: Diff): Tree {
    map p | p in t.Keys + d.Keys && (p in d ==> d[p].now.Some?) :: if p in d then d[p].now.value else t[p]
  }

  ghost predicate SameOutside(a: Tree, b: Tree, d: Diff) {
    forall p :: p !in d ==> At(a, p) == At(b, p)
  }

  ghost predicate HasWas(t: Tree, d: Diff) {
    forall p :: p in d ==> At(t, p) == d[p].was
  }

  ghost predicate HasNow(t: Tree, d: Diff) {
    forall p :: p in d ==> At(t, p) == d[p].now
  }

  /** The two checkouts agree on the paths of the patch. */
  ghost predicate SameOn(s: Snap, t: Snap, d: Diff) {
    forall p :: p in d ==> At(s.index, p) == At(t.index, p) && At(s.work, p) == At(t.work, p)
  }

  /** They agree on all others. */
  ghost predicate SameBeside(s: Snap, t: Snap, d: Diff) {
    SameOutside(s.index, t.index, d) && SameOutside(s.work, t.work, d)
  }

  lemma PatchedAt(t: Tree, d: Diff, p: Path)
    ensures At(Patched(t, d), p) == if p in d then d[p].now else At(t, p)
  {
  }

  lemma TreesEqual(a: Tree, b: Tree)
    requires forall p :: At(a, p) == At(b, p)
    ensures a == b
  {
    forall p
      ensures p in a <==> p in b
      ensures p in a ==> a[p] == b[p]
    {
      assert At(a, p) == At(b, p);
    }
  }

  /** Applying the difference gives the other tree. */
  lemma PatchedBetween(a: Tree, b: Tree)
    ensures Patched(a, Between(a, b)) == b
  {
    forall p
      ensures At(Patched(a, Between(a, b)), p) == At(b, p)
    {
      PatchedAt(a, Between(a, b), p);
    }
    TreesEqual(Patched(a, Between(a, b)), b);
  }

  /** The reverse patch undoes the patch wherever its old side was in place. */
  lemma ReverseUndoes(t: Tree, d: Diff)
    requires HasWas(t, d)
    ensures HasNow(Patched(t, d), d) && Patched(Patched(t, d), Reverse(d)) == t
  {
    forall p
      ensures At(Patched(Patched(t, d), Reverse(d)), p) == At(t, p)
      ensures p in d ==> At(Patched(t, d), p) == d[p].now
    {
      PatchedAt(t, d, p);
      PatchedAt(Patched(t, d), Reverse(d), p);
    }
    TreesEqual(Patched(Patched(t, d), Reverse(d)), t);
  }

  // ---------------------------------------------------------------------------------------
  // Git, as it answers
  // ---------------------------------------------------------------------------------------

  /** What one `git apply --index` did. It is all or nothing, but what it lands need not be the patch's
      new side: hunks can match elsewhere, and filters rewrite content. */
  datatype Landing = Refuses | Lands(index: Tree, work: Tree)

  function After(s: Snap, l: Landing): Snap {
    match l
    case Refuses => s
    case Lands(index, work) => Snap(s.head, index, work)
  }

  /** It writes only the patch's paths. */
  ghost predicate Confined(s: Snap, l: Landing, d: Diff) {
    l.Lands? ==> SameOutside(s.index, l.index, d) && SameOutside(s.work, l.work, d)
  }

  /** `--index`: on the patch's paths both trees hold its old side. No path at all is an error. */
  ghost predicate Applies(s: Snap, d: Diff) {
    d != map[] && HasWas(s.index, d) && HasWas(s.work, d)
  }

  /** A git that lands the new side exactly when the old side is in place. */
  ghost predicate Exact(s: Snap, l: Landing, d: Diff) {
    if Applies(s, d) then l == Lands(Patched(s.index, d), Patched(s.work, d)) else l == Refuses
  }

  /** `git diff --quiet`: every file of the index is in the worktree unchanged. */
  ghost predicate WorkIsIndex(s: Snap) {
    forall p :: p in s.index ==> At(s.work, p) == At(s.index, p)
  }

  /** `git status` prints nothing: index as HEAD, worktree as index, and no file besides but ignored ones. */
  ghost predicate CleanTree(s: Snap, ignored: set<Path>) {
    s.index == s.head && WorkIsIndex(s) && forall p :: p in s.work && p !in s.index ==> p in ignored
  }

  // ---------------------------------------------------------------------------------------
  // Integrate
  // ---------------------------------------------------------------------------------------

  datatype Pick = Conflict | PickFails | AllEmpty | Picked(tree: Tree)

  /** Everything an integrate call is told. A boolean: the step's command ran and its answer lets the call
      go on; an option is `None` when the command failed, where that is a refusal of its own. */
  datatype Answers = Answers(
    usage: bool, names: bool, version: Option<bool>, lock: Option<bool>,
    status: bool, ignored: set<Path>, onBranch: bool, base: bool, from: bool, since: bool,
    ancestor: Option<bool>, linear: Option<bool>,
    commits: Option<nat>, temp: bool, pick: Pick, diffed: bool, patchWritten: bool,
    applied: Landing, cachedRan: bool, diffRan: bool, reversed: Landing)

  datatype Refusal =
    | Usage | InvalidName | GitTooOld | Locked
    | DirtyTree | DetachedHead | FromMissing | SinceNotAncestor | MergeInRange
    | TempFailed | PickConflict | GitFailed | IoFailed

  datatype Outcome = Integrated | NothingToDo | Refused(why: Refusal) | Mismatch(reversed: bool)

  /** The checks before any worktree is made, in their order. */
  ghost function Preconditions(s: Snap, a: Answers): Option<Refusal> {
    if !a.status then Some(GitFailed)
    else if !CleanTree(s, a.ignored) then Some(DirtyTree)
    else if !a.onBranch then Some(DetachedHead)
    else if !a.base then Some(GitFailed)
    else if !a.from then Some(FromMissing)
    else if !a.since then Some(SinceNotAncestor)
    else if a.ancestor.None? then Some(GitFailed)
    else if !a.ancestor.value then Some(SinceNotAncestor)
    else if a.linear.None? then Some(GitFailed)
    else if !a.linear.value then Some(MergeInRange)
    else None
  }

  /** HEAD is on a branch, and `since..from` is a line of commits that starts at an ancestor. */
  predicate RangeIsGood(a: Answers) {
    a.onBranch && a.base && a.from && a.since && a.ancestor == Some(true) && a.linear == Some(true)
  }

  /** The call is a proper one and holds the lock. */
  predicate HoldsLock(a: Answers) {
    a.usage && a.names && a.version == Some(true) && a.lock == Some(true)
  }

  /** It holds the lock, and tree and range are as they must be. */
  ghost predicate GetsToRange(s: Snap, a: Answers) {
    HoldsLock(a) && a.status && CleanTree(s, a.ignored) && RangeIsGood(a)
  }

  /** There are commits to pick and a worktree to pick them in. */
  ghost predicate GetsToPick(s: Snap, a: Answers) {
    GetsToRange(s, a) && a.commits.Some? && a.commits.value > 0 && a.temp
  }

  ghost predicate Verified(s: Snap, a: Answers, picked: Tree) {
    a.cachedRan && s.index == picked && a.diffRan && WorkIsIndex(s)
  }

  /** `apply`, once the diff is known. */
  ghost function Land(s: Snap, a: Answers, picked: Tree): (Snap, Outcome) {
    if !a.diffed then (s, Refused(GitFailed))
    else if !a.patchWritten then (s, Refused(IoFailed))
    else if a.applied.Refuses? then (s, Refused(GitFailed))
    else
      var landed := After(s, a.applied);
      if Verified(landed, a, picked) then (landed, Integrated)
      else (After(landed, a.reversed), Mismatch(a.reversed.Lands?))
  }

  ghost function Integrate(s: Snap, a: Answers): (Snap, Outcome) {
    if !a.usage then (s, Refused(Usage))
    else if !a.names then (s, Refused(InvalidName))
    else if a.version.None? then (s, Refused(GitFailed))
    else if !a.version.value then (s, Refused(GitTooOld))
    else if a.lock.None? then (s, Refused(IoFailed))
    else if !a.lock.value then (s, Refused(Locked))
    else
      var pre := Preconditions(s, a);
      if pre.Some? then (s, Refused(pre.value))
      else if a.commits.None? then (s, Refused(GitFailed))
      else if a.commits.value == 0 then (s, NothingToDo)
      else if !a.temp then (s, Refused(TempFailed))
      else match a.pick
        case Conflict => (s, Refused(PickConflict))
        case PickFails => (s, Refused(GitFailed))
        case AllEmpty => (s, NothingToDo)
        case Picked(tree) => Land(s, a, tree)
  }

  /** The caller's checkout, changed step by step. */
  class Checkout {
    var head: Tree
    var index: Tree
    var work: Tree

    ghost function Now(): Snap reads this { Snap(head, index, work) }

    constructor (head: Tree, index: Tree, work: Tree)
      ensures Now() == Snap(head, index, work)
    {
      this.head, this.index, this.work := head, index, work;
    }

    method GitApply(l: Landing) returns (ok: bool)
      modifies this
      ensures ok <==> l.Lands?
      ensures Now() == After(old(Now()), l)
    {
      match l {
        case Refuses => return false;
        case Lands(i, w) =>
          index, work := i, w;
          return true;
      }
    }

    method Differs(a: Tree, b: Tree, keys: set<Path>) returns (differs: bool)
      ensures differs <==> exists p :: p in keys && At(a, p) != At(b, p)
    {
      var todo := keys;
      while todo != {}
        invariant todo <= keys && forall p :: p in keys - todo ==> At(a, p) == At(b, p)
        decreases |todo|
      {
        var p :| p in todo;
        if At(a, p) != At(b, p) { return true; }
        todo := todo - {p};
      }
      return false;
    }

    /** `status --porcelain --untracked-files=all` prints nothing. */
    method StatusClean(ignored: set<Path>) returns (clean: bool)
      ensures clean <==> CleanTree(Now(), ignored)
    {
      if index != head { return false; }
      var changed := Differs(work, index, index.Keys);
      if changed { return false; }
      return work.Keys - index.Keys <= ignored;
    }

    method CheckPreconditions(a: Answers) returns (refusal: Option<Refusal>)
      ensures refusal == Preconditions(Now(), a)
      ensures refusal == None <==> a.status && CleanTree(Now(), a.ignored) && RangeIsGood(a)
      ensures refusal == Some(DirtyTree) <==> a.status && !CleanTree(Now(), a.ignored)
    {
      if !a.status { return Some(GitFailed); }
      var clean := StatusClean(a.ignored);
      if !clean { return Some(DirtyTree); }
      if !a.onBranch { return Some(DetachedHead); }
      if !a.base { return Some(GitFailed); }
      if !a.from { return Some(FromMissing); }
      if !a.since { return Some(SinceNotAncestor); }
      if a.ancestor.None? { return Some(GitFailed); }
      if !a.ancestor.value { return Some(SinceNotAncestor); }
      if a.linear.None? { return Some(GitFailed); }
      if !a.linear.value { return Some(MergeInRange); }
      return None;
    }

    /** `apply` */
    method Apply(a: Answers, picked: Tree) returns (outcome: Outcome)
      modifies this
      ensures (Now(), outcome) == Land(old(Now()), a, picked)
      ensures head == old(head) && !outcome.NothingToDo?
      ensures outcome.Refused? ==> Now() == old(Now())
      ensures outcome == Integrated ==> index == picked && forall p :: p in index ==> At(work, p) == At(index, p)
      ensures outcome.Mismatch? ==> a.applied.Lands? && !Verified(After(old(Now()), a.applied), a, picked)
      ensures outcome == Mismatch(true) ==> a.reversed == Lands(index, work)
      ensures outcome == Mismatch(false) ==> a.applied == Lands(index, work)
    {
      if !a.diffed { return Refused(GitFailed); }
      if !a.patchWritten { return Refused(IoFailed); }
      var ok := GitApply(a.applied);
      if !ok { return Refused(GitFailed); }
      var changed := Differs(work, index, index.Keys);
      if a.cachedRan && index == picked && a.diffRan && !changed { return Integrated; }
      var undone := GitApply(a.reversed);
      return Mismatch(undone);
    }

    /** `Run` */
    method Run(a: Answers) returns (outcome: Outcome)
      modifies this
      ensures (Now(), outcome) == Integrate(old(Now()), a)
      ensures head == old(head)
      ensures outcome.Refused? || outcome.NothingToDo? ==> Now() == old(Now())
      ensures outcome == Integrated || outcome.Mismatch? ==> a.pick.Picked? && old(CleanTree(Now(), a.ignored))
      ensures outcome == Integrated ==> index == a.pick.tree && forall p :: p in index ==> At(work, p) == At(index, p)
      ensures outcome == Integrated || outcome.Mismatch? ==> GetsToPick(old(Now()), a) && a.diffed && a.patchWritten
      ensures outcome == Refused(Locked) <==> a.usage && a.names && a.version == Some(true) && a.lock == Some(false)
      ensures outcome == NothingToDo
              <==> GetsToRange(old(Now()), a)
                   && (a.commits == Some(0) || (GetsToPick(old(Now()), a) && a.pick.AllEmpty?))
      ensures outcome == Integrated ==> a.applied == Lands(index, work)
      ensures outcome == Mismatch(true) ==> a.reversed == Lands(index, work)
      ensures outcome == Mismatch(false) ==> a.applied == Lands(index, work)
    {
      if !a.usage { return Refused(Usage); }
      if !a.names { return Refused(InvalidName); }
      if a.version.None? { return Refused(GitFailed); }
      if !a.version.value { return Refused(GitTooOld); }
      if a.lock.None? { return Refused(IoFailed); }
      if !a.lock.value { return Refused(Locked); }
      var pre := CheckPreconditions(a);
      if pre.Some? { return Refused(pre.value); }
      if a.commits.None? { return Refused(GitFailed); }
      if a.commits.value == 0 { return NothingToDo; }
      if !a.temp { return Refused(TempFailed); }
      match a.pick {
        case Conflict => return Refused(PickConflict);
        case PickFails => return Refused(GitFailed);
        case AllEmpty => return NothingToDo;
        case Picked(tree) => outcome := Apply(a, tree);
      }
    }

    /** `Revert` */
    method RevertPatch(r: RevertAnswers) returns (outcome: RevertOutcome)
      modifies this
      ensures (Now(), outcome) == Revert(old(Now()), r)
      ensures head == old(head)
      ensures outcome.RevertRefused? || outcome.NothingToRevert? ==> Now() == old(Now())
      ensures outcome == Reverted || outcome == RevertMismatch ==> r.paths.Some? && r.applied == Lands(index, work)
      ensures outcome == Reverted || outcome == RevertMismatch ==>
                forall p :: p in r.paths.value && p in old(index) ==> At(old(work), p) == At(old(index), p)
      ensures outcome == Reverted ==> forall p :: p in r.paths.value ==> At(index, p) == At(head, p)
      ensures outcome == Reverted ==> forall p :: p in r.paths.value && p in head ==> At(work, p) == At(head, p)
      ensures outcome == RevertMismatch && r.verifyRan ==>
                exists p :: p in r.paths.value && (At(index, p) != At(head, p) || At(work, p) != At(head, p))
    {
      if !r.usage { return RevertRefused(BadUsage); }
      if !r.file { return RevertRefused(PatchMissing); }
      if r.lock.None? { return RevertRefused(RevertIoFailed); }
      if !r.lock.value { return RevertRefused(RevertLocked); }
      if r.paths.None? { return RevertRefused(RevertGitFailed); }
      var paths := r.paths.value;
      if paths == {} { return NothingToRevert; }
      if !r.diffRan { return RevertRefused(RevertGitFailed); }
      var changed := Differs(work, index, paths * index.Keys);
      if changed { return RevertRefused(IndexDiffers); }
      if !r.cachedRan { return RevertRefused(RevertGitFailed); }
      var staged := Differs(index, head, paths);
      if !staged { return RevertRefused(NothingStaged); }
      if !r.check { return RevertRefused(ConflictingEdit); }
      var ok := GitApply(r.applied);
      if !ok { return RevertRefused(RevertGitFailed); }
      var still := Differs(index, head, paths);
      var wt := TrackedDiffers(paths);
      if still || wt || !r.verifyRan { return RevertMismatch; }
      return Reverted;
    }

    method TrackedDiffers(paths: set<Path>) returns (differs: bool)
      ensures differs <==> !WorkIsHeadOn(Now(), paths)
    {
      var i := index;
      var w := work;
      var tracked := map p | p in w && p in i :: w[p];
      differs := Differs(tracked, head, paths);
    }
  }

  /** When each refusal is the answer: the first check that does not pass. */
  lemma RefusesExactly(s: Snap, a: Answers)
    ensures var o := Integrate(s, a).1;
            && (o == Refused(Usage) <==> !a.usage)
            && (o == Refused(InvalidName) <==> a.usage && !a.names)
            && (o == Refused(GitTooOld) <==> a.usage && a.names && a.version == Some(false))
            && (o == Refused(Locked) <==> a.usage && a.names && a.version == Some(true) && a.lock == Some(false))
            && (o == Refused(DirtyTree) <==> HoldsLock(a) && a.status && !CleanTree(s, a.ignored))
            && (o == Refused(DetachedHead) <==> HoldsLock(a) && a.status && CleanTree(s, a.ignored) && !a.onBranch)
  {
  }

  lemma RefusesRangeExactly(s: Snap, a: Answers)
    ensures var o := Integrate(s, a).1;
            var based := HoldsLock(a) && a.status && CleanTree(s, a.ignored) && a.onBranch && a.base;
            && (o == Refused(FromMissing) <==> based && !a.from)
            && (o == Refused(SinceNotAncestor) <==> based && a.from && (!a.since || a.ancestor == Some(false)))
            && (o == Refused(MergeInRange)
                <==> based && a.from && a.since && a.ancestor == Some(true) && a.linear == Some(false))
            && (o == Refused(TempFailed) <==> GetsToRange(s, a) && a.commits.Some? && a.commits.value > 0 && !a.temp)
            && (o == Refused(PickConflict) <==> GetsToPick(s, a) && a.pick.Conflict?)
            && (o == Refused(IoFailed)
                <==> || (a.usage && a.names && a.version == Some(true) && a.lock == None)
                     || (GetsToPick(s, a) && a.pick.Picked? && a.diffed && !a.patchWritten))
  {
  }

  /** When a call that gets to the apply integrates: the apply landed exactly the picked tree in the index, and
      every file of it in the worktree, and both comparisons could be made. Otherwise it is a mismatch. */
  lemma AppliesExactly(s: Snap, a: Answers)
    ensures var o := Integrate(s, a).1;
            var applied := GetsToPick(s, a) && a.pick.Picked? && a.diffed && a.patchWritten && a.applied.Lands?;
            && (o == Integrated || o.Mismatch? <==> applied)
            && (o == Integrated
                <==> && applied && a.cachedRan && a.diffRan && a.applied.index == a.pick.tree
                     && forall p :: p in a.pick.tree ==> At(a.applied.work, p) == At(a.pick.tree, p))
            && (o.Mismatch? ==> o == Mismatch(a.reversed.Lands?))
            && (o == NothingToDo
                <==> GetsToRange(s, a) && (a.commits == Some(0) || (GetsToPick(s, a) && a.pick.AllEmpty?)))
  {
  }

  /** What `dirty_tree` means: some path is staged, or changed or missing in the worktree, or not tracked and
      not ignored. Without that refusal the old side of every patch on HEAD is in the index, and in the
      worktree as far as git tracks it. */
  lemma DirtyExactly(s: Snap, a: Answers, picked: Tree)
    ensures Preconditions(s, a) == Some(DirtyTree)
            <==> a.status && exists p :: || At(s.index, p) != At(s.head, p)
                                         || (p in s.index && At(s.work, p) != At(s.index, p))
                                         || (p in s.work && p !in s.index && p !in a.ignored)
    ensures var d := Between(s.head, picked);
            Preconditions(s, a) == None ==>
              HasWas(s.index, d) && forall p :: p in d && p in s.head ==> At(s.work, p) == d[p].was
  {
    if a.status && !CleanTree(s, a.ignored) && forall p :: At(s.index, p) == At(s.head, p) {
      TreesEqual(s.index, s.head);
    }
  }

  /** What a call leaves alone. HEAD never moves and a refusal changes nothing. After a success the index and
      the tracked files are as before outside the patch, whatever git did: the tree was clean and the
      verification compared all of it. Only for a mismatch, and for files git does not track, does it
      matter that the applies write nothing but the patch's paths. */
  lemma OutsideIsUntouched(s: Snap, a: Answers)
    ensures var (t, outcome) := Integrate(s, a);
            && t.head == s.head
            && (outcome.Refused? || outcome.NothingToDo? ==> t == s)
            && (outcome == Integrated || outcome.Mismatch? ==> a.pick.Picked?)
    ensures var (t, outcome) := Integrate(s, a);
            outcome == Integrated ==>
              && SameOutside(s.index, t.index, Between(s.head, a.pick.tree))
              && forall p :: p in s.index && p !in Between(s.head, a.pick.tree) ==> At(t.work, p) == At(s.work, p)
    ensures var (t, outcome) := Integrate(s, a);
            (outcome == Integrated || outcome.Mismatch?) && AppliesAreConfined(s, a, Between(s.head, a.pick.tree)) ==>
              SameBeside(s, t, Between(s.head, a.pick.tree))
  {
    var (t, outcome) := Integrate(s, a);
    if outcome == Integrated {
      forall p | p !in Between(s.head, a.pick.tree)
        ensures At(t.index, p) == At(s.index, p)
        ensures p in s.index ==> At(t.work, p) == At(s.work, p)
      {
        assert At(s.head, p) == At(a.pick.tree, p);
      }
    }
  }

  ghost predicate AppliesAreConfined(s: Snap, a: Answers, d: Diff) {
    Confined(s, a.applied, d) && Confined(After(s, a.applied), a.reversed, d)
  }

  /** Success means both trees are the picked one: the index wholly, the worktree on every file of it,
      whatever git did. The files beside it are ignored ones or the patch's own, if the apply wrote only the
      patch's paths: the verification does not look at files git does not track. */
  lemma SuccessIsThePickedTree(s: Snap, a: Answers)
    requires Integrate(s, a).1 == Integrated
    ensures var t := Integrate(s, a).0;
            && t.index == a.pick.tree && WorkIsIndex(t)
            && (Confined(s, a.applied, Between(s.head, a.pick.tree)) ==>
                  forall p :: p in t.work && p !in t.index ==> p in a.ignored || p in Between(s.head, a.pick.tree))
  {
    var d := Between(s.head, a.pick.tree);
    var t := Integrate(s, a).0;
    if Confined(s, a.applied, d) {
      forall p | p in t.work && p !in t.index && p !in d
        ensures p in a.ignored
      {
        assert At(s.work, p) == At(t.work, p);
        assert At(s.index, p) == At(t.index, p);
      }
    }
  }

  /** A clean tree holds the old side of the patch in its index; in its worktree too, unless an ignored
      file lies where the patch adds one. */
  ghost predicate NoIgnoredInTheWay(s: Snap, d: Diff) {
    forall p :: p in d && d[p].was == None ==> p !in s.work
  }

  lemma CleanApplies(s: Snap, ignored: set<Path>, picked: Tree)
    requires CleanTree(s, ignored)
    ensures var d := Between(s.head, picked);
            Applies(s, d) <==> d != map[] && NoIgnoredInTheWay(s, d)
  {
    var d := Between(s.head, picked);
    forall p | p in d
      ensures At(s.index, p) == d[p].was
      ensures p in s.index ==> At(s.work, p) == d[p].was
    {
    }
    if d != map[] && NoIgnoredInTheWay(s, d) {
      forall p | p in d
        ensures At(s.work, p) == d[p].was
      {
        assert p in s.index || d[p].was == None;
      }
    }
  }

  /** Every check of a call passes up to the apply. */
  ghost predicate ReachesApply(s: Snap, a: Answers) {
    && a.usage && a.names && a.version == Some(true) && a.lock == Some(true) && Preconditions(s, a) == None
    && a.commits.Some? && a.commits.value > 0 && a.temp && a.pick.Picked? && a.diffed && a.patchWritten
    && a.cachedRan && a.diffRan
  }

  /** When the call integrates, with a git that lands patches exactly: the commits leave a net change,
      and no ignored file is in its way. A range whose commits cancel out is no success: git refuses the
      empty patch. */
  lemma IntegratesExactly(s: Snap, a: Answers)
    requires ReachesApply(s, a) && Exact(s, a.applied, Between(s.head, a.pick.tree))
    ensures var d := Between(s.head, a.pick.tree);
            && (Integrate(s, a).1 == Integrated <==> a.pick.tree != s.head && NoIgnoredInTheWay(s, d))
            && (a.pick.tree == s.head || !NoIgnoredInTheWay(s, d) ==> Integrate(s, a) == (s, Refused(GitFailed)))
  {
    var d := Between(s.head, a.pick.tree);
    CleanApplies(s, a.ignored, a.pick.tree);
    PatchedBetween(s.head, a.pick.tree);
    if d == map[] {
      forall p
        ensures At(s.head, p) == At(a.pick.tree, p)
      {
        assert p !in d;
      }
      TreesEqual(s.head, a.pick.tree);
    } else {
      var p :| p in d;
      assert At(s.head, p) != At(a.pick.tree, p);
    }
    if Applies(s, d) {
      var t := After(s, a.applied);
      forall p | p in t.index
        ensures At(t.work, p) == At(t.index, p)
      {
        PatchedAt(s.index, d, p);
        PatchedAt(s.work, d, p);
      }
    }
  }

  lemma MismatchReverses(s: Snap, a: Answers)
    requires Integrate(s, a).1.Mismatch?
    ensures Integrate(s, a) == (After(After(s, a.applied), a.reversed), Mismatch(a.reversed.Lands?))
    ensures After(s, a.applied).head == s.head
  {
  }

  /** A mismatch that an exact git reverse-applied leaves the tree as it was, and it can reverse exactly
      what landed as the patch's new side; anything else stays, on the patch's paths. */
  lemma MismatchIsUndone(s: Snap, a: Answers, d: Diff)
    requires Integrate(s, a).1.Mismatch? && d == Between(s.head, a.pick.tree)
    requires Applies(s, d) && Confined(s, a.applied, d) && Exact(After(s, a.applied), a.reversed, Reverse(d))
    ensures var (t, outcome) := Integrate(s, a);
            var landed := After(s, a.applied);
            && (outcome == Mismatch(true) <==> HasNow(landed.index, d) && HasNow(landed.work, d))
            && (outcome == Mismatch(true) ==> t == s)
            && (outcome == Mismatch(false) ==> t == landed)
  {
    MismatchReverses(s, a);
    LandedIsReversed(s, After(s, a.applied), d, a.reversed);
  }

  lemma LandedIsReversed(s: Snap, landed: Snap, d: Diff, back: Landing)
    requires Applies(s, d) && landed.head == s.head && SameBeside(s, landed, d) && Exact(landed, back, Reverse(d))
    ensures back.Lands? <==> HasNow(landed.index, d) && HasNow(landed.work, d)
    ensures After(landed, back) == if back.Lands? then s else landed
  {
    BackApplies(landed, d);
    if HasNow(landed.index, d) && HasNow(landed.work, d) {
      LandedIsPatched(s.index, landed.index, d);
      LandedIsPatched(s.work, landed.work, d);
      ReverseUndoes(s.index, d);
      ReverseUndoes(s.work, d);
    }
  }

  lemma LandedIsPatched(t: Tree, landed: Tree, d: Diff)
    requires SameOutside(t, landed, d) && HasNow(landed, d)
    ensures landed == Patched(t, d)
  {
    forall p
      ensures At(landed, p) == At(Patched(t, d), p)
    {
      PatchedAt(t, d, p);
    }
    TreesEqual(landed, Patched(t, d));
  }

  // ---------------------------------------------------------------------------------------
  // Revert
  // ---------------------------------------------------------------------------------------

  /** What a revert call is told: `paths` from the patch file (`None`: unreadable), whether each git
      question could be answered, whether the reverse checks clean, and what it lands. */
  datatype RevertAnswers = RevertAnswers(
    usage: bool, file: bool, lock: Option<bool>, paths: Option<set<Path>>,
    diffRan: bool, cachedRan: bool, check: bool, applied: Landing, verifyRan: bool)

  datatype RevertRefusal =
    | BadUsage | PatchMissing | RevertLocked | RevertIoFailed
    | RevertGitFailed | IndexDiffers | NothingStaged | ConflictingEdit

  datatype RevertOutcome = Reverted | NothingToRevert | RevertRefused(why: RevertRefusal) | RevertMismatch

  ghost predicate WorkIsIndexOn(s: Snap, paths: set<Path>) {
    forall p :: p in paths && p in s.index ==> At(s.work, p) == At(s.index, p)
  }

  ghost predicate StagedOn(s: Snap, paths: set<Path>) {
    exists p :: p in paths && At(s.index, p) != At(s.head, p)
  }

  /** `diff --quiet HEAD`: a path git does not track counts as missing. */
  ghost predicate WorkIsHeadOn(s: Snap, paths: set<Path>) {
    forall p :: p in paths ==> (if p in s.index then At(s.work, p) else None) == At(s.head, p)
  }

  ghost function Revert(s: Snap, r: RevertAnswers): (Snap, RevertOutcome) {
    if !r.usage then (s, RevertRefused(BadUsage))
    else if !r.file then (s, RevertRefused(PatchMissing))
    else if r.lock.None? then (s, RevertRefused(RevertIoFailed))
    else if !r.lock.value then (s, RevertRefused(RevertLocked))
    else if r.paths.None? then (s, RevertRefused(RevertGitFailed))
    else
      var paths := r.paths.value;
      if paths == {} then (s, NothingToRevert)
      else if !r.diffRan then (s, RevertRefused(RevertGitFailed))
      else if !WorkIsIndexOn(s, paths) then (s, RevertRefused(IndexDiffers))
      else if !r.cachedRan then (s, RevertRefused(RevertGitFailed))
      else if !StagedOn(s, paths) then (s, RevertRefused(NothingStaged))
      else if !r.check then (s, RevertRefused(ConflictingEdit))
      else if r.applied.Refuses? then (s, RevertRefused(RevertGitFailed))
      else
        var t := After(s, r.applied);
        (t, if StagedOn(t, paths) || !WorkIsHeadOn(t, paths) || !r.verifyRan then RevertMismatch else Reverted)
  }

  /** A refusal (58, 59 and the rest) changes nothing and HEAD never moves. After a success the paths of the
      patch are HEAD's in index and worktree, whatever git did, and no other answer to a reverse that landed
      says so: with `verifyRan` a mismatch has a path that is not. Elsewhere a revert looks at nothing, so
      only an apply that keeps to the patch's paths leaves the rest alone. */
  lemma RevertIsSafe(s: Snap, d: Diff, r: RevertAnswers)
    requires r.paths.Some? ==> r.paths.value == d.Keys
    ensures var (t, outcome) := Revert(s, r);
            && t.head == s.head
            && (outcome.RevertRefused? || outcome.NothingToRevert? ==> t == s)
            && (outcome == Reverted ==> SettledOn(t, d.Keys) && WorkIsIndexOn(s, d.Keys) && StagedOn(s, d.Keys))
            && (outcome == RevertMismatch && r.verifyRan ==> !SettledOn(t, d.Keys))
    ensures var (t, outcome) := Revert(s, r);
            Confined(s, r.applied, d) ==> SameBeside(s, t, d)
  {
    var (t, outcome) := Revert(s, r);
    if outcome == Reverted || (outcome == RevertMismatch && r.verifyRan) {
      SettledExactly(t, d.Keys);
    }
  }

  /** The revert holds the lock and knows the paths of the patch. */
  predicate KnowsPaths(r: RevertAnswers) {
    r.usage && r.file && r.lock == Some(true) && r.paths.Some?
  }

  /** When each refusal of a revert is the answer. */
  lemma RevertRefusesExactly(s: Snap, r: RevertAnswers)
    ensures var o := Revert(s, r).1;
            && (o == RevertRefused(BadUsage) <==> !r.usage)
            && (o == RevertRefused(PatchMissing) <==> r.usage && !r.file)
            && (o == RevertRefused(RevertIoFailed) <==> r.usage && r.file && r.lock == None)
            && (o == RevertRefused(RevertLocked) <==> r.usage && r.file && r.lock == Some(false))
            && (o == NothingToRevert <==> KnowsPaths(r) && r.paths.value == {})
            && (o == RevertRefused(IndexDiffers)
                <==> KnowsPaths(r) && r.diffRan && !WorkIsIndexOn(s, r.paths.value))
            && (o == RevertRefused(NothingStaged)
                <==> && KnowsPaths(r) && r.paths.value != {}
                     && r.diffRan && WorkIsIndexOn(s, r.paths.value) && r.cachedRan
                     && forall p :: p in r.paths.value ==> At(s.index, p) == At(s.head, p))
            && (o == RevertRefused(ConflictingEdit)
                <==> KnowsPaths(r) && r.diffRan && WorkIsIndexOn(s, r.paths.value) && r.cachedRan
                     && StagedOn(s, r.paths.value) && !r.check)
  {
  }

  /** When a reverse is landed, and what the answer to it is. */
  lemma RevertLandsExactly(s: Snap, r: RevertAnswers)
    ensures var (t, o) := Revert(s, r);
            var lands := && KnowsPaths(r) && r.diffRan && WorkIsIndexOn(s, r.paths.value) && r.cachedRan
                         && StagedOn(s, r.paths.value) && r.check && r.applied.Lands?;
            && (o == Reverted || o == RevertMismatch <==> lands)
            && (lands ==> t == Snap(s.head, r.applied.index, r.applied.work))
            && (o == Reverted <==> lands && r.verifyRan && SettledOn(t, r.paths.value))
  {
    if r.paths.Some? {
      SettledExactly(Revert(s, r).0, r.paths.value);
    }
  }

  /** HEAD's content in index and worktree; a path HEAD does not have is out of the index. */
  ghost predicate SettledOn(s: Snap, paths: set<Path>) {
    forall p :: p in paths ==> At(s.index, p) == At(s.head, p) && (p in s.head ==> At(s.work, p) == At(s.head, p))
  }

  /** The two comparisons of the verification, index and worktree against HEAD, together say that. */
  lemma SettledExactly(s: Snap, paths: set<Path>)
    ensures SettledOn(s, paths) <==> !StagedOn(s, paths) && WorkIsHeadOn(s, paths)
  {
    if !StagedOn(s, paths) {
      assert forall p :: p in paths ==> At(s.index, p) == At(s.head, p);
    }
  }

  /** Outside the patch's paths a revert notices nothing: another landing that agrees on them has the same
      answer, whatever else it wrote. */
  lemma RevertSeesItsPathsOnly(s: Snap, r: RevertAnswers, index: Tree, work: Tree)
    requires r.paths.Some? && r.applied.Lands?
    requires forall p :: p in r.paths.value ==>
               At(index, p) == At(r.applied.index, p) && At(work, p) == At(r.applied.work, p)
    ensures Revert(s, r.(applied := Lands(index, work))).1 == Revert(s, r).1
    ensures Revert(s, r).1 == Reverted ==> Revert(s, r.(applied := Lands(index, work))).0 == Snap(s.head, index, work)
  {
    var t, u := After(s, r.applied), Snap(s.head, index, work);
    forall p | p in r.paths.value
      ensures At(t.index, p) == At(u.index, p) && At(t.work, p) == At(u.work, p)
      ensures p in t.index <==> p in u.index
    {
    }
    assert StagedOn(t, r.paths.value) <==> StagedOn(u, r.paths.value) by {
      assert StagedOn(t, r.paths.value) ==> StagedOn(u, r.paths.value) by {
        if StagedOn(t, r.paths.value) {
          var p :| p in r.paths.value && At(t.index, p) != At(t.head, p);
          assert At(u.index, p) != At(u.head, p);
        }
      }
      if StagedOn(u, r.paths.value) {
        var p :| p in r.paths.value && At(u.index, p) != At(u.head, p);
        assert At(t.index, p) != At(t.head, p);
      }
    }
  }

  /** Nothing stands between a revert and its answer but the trees. */
  ghost predicate Answered(r: RevertAnswers, d: Diff) {
    && r.usage && r.file && r.lock == Some(true) && r.paths == Some(d.Keys)
    && r.diffRan && r.cachedRan && r.verifyRan
  }

  lemma BackApplies(s: Snap, d: Diff)
    requires d != map[]
    ensures Applies(s, Reverse(d)) <==> HasNow(s.index, d) && HasNow(s.work, d)
  {
    var back := Reverse(d);
    assert back.Keys == d.Keys;
    assert back != map[] by {
      var p :| p in d;
      assert p in back;
    }
    if Applies(s, back) {
      assert forall p :: p in d ==> p in back && back[p].was == d[p].now;
    }
  }

  /** When a revert succeeds, with an exact git: the patch's new side is in place in index and worktree,
      and its old side is what HEAD has. */
  lemma RevertsExactly(s: Snap, d: Diff, r: RevertAnswers)
    requires Answered(r, d) && d != map[]
    requires forall p :: p in d ==> d[p].was != d[p].now
    requires Exact(s, r.applied, Reverse(d)) && (r.check <==> r.applied.Lands?)
    ensures Revert(s, r).1 == Reverted <==> HasNow(s.index, d) && HasNow(s.work, d) && HasWas(s.head, d)
  {
    var back := Reverse(d);
    assert back.Keys == d.Keys;
    assert d.Keys != {} by {
      var p :| p in d;
    }
    BackApplies(s, d);
    if HasNow(s.index, d) && HasNow(s.work, d) {
      AfterReverse(s, d, r.applied);
      if HasWas(s.head, d) {
        var p :| p in d;
        assert At(s.index, p) != At(s.head, p);
      }
    }
  }

  lemma AfterReverse(s: Snap, d: Diff, l: Landing)
    requires l == Lands(Patched(s.index, Reverse(d)), Patched(s.work, Reverse(d)))
    ensures HasWas(After(s, l).index, d) && HasWas(After(s, l).work, d)
    ensures SameOutside(s.index, After(s, l).index, d) && SameOutside(s.work, After(s, l).work, d)
  {
    forall p
      ensures p in d ==> At(l.index, p) == d[p].was && At(l.work, p) == d[p].was
      ensures p !in d ==> At(l.index, p) == At(s.index, p) && At(l.work, p) == At(s.work, p)
    {
      PatchedAt(s.index, Reverse(d), p);
      PatchedAt(s.work, Reverse(d), p);
    }
  }

  /** An integrate with an exact git lands the patch on a clean tree. */
  lemma IntegrateLands(s: Snap, a: Answers)
    requires Integrate(s, a).1 == Integrated && Exact(s, a.applied, Between(s.head, a.pick.tree))
    ensures var d := Between(s.head, a.pick.tree);
            && Applies(s, d) && HasWas(s.head, d) && (forall p :: p in d ==> d[p].was != d[p].now)
            && Integrate(s, a).0 == Snap(s.head, Patched(s.index, d), Patched(s.work, d))
  {
  }

  /** Reverting where the patch's new side is in place and its old side is HEAD's puts the old side back. */
  lemma RevertPutsBack(s: Snap, edited: Snap, d: Diff, r: RevertAnswers)
    requires d != map[] && forall p :: p in d ==> d[p].was != d[p].now
    requires HasWas(s.index, d) && HasWas(s.work, d) && HasWas(edited.head, d)
    requires HasNow(edited.index, d) && HasNow(edited.work, d)
    requires Answered(r, d) && Exact(edited, r.applied, Reverse(d)) && (r.check <==> r.applied.Lands?)
    ensures Revert(edited, r).1 == Reverted && Revert(edited, r).0.head == edited.head
    ensures SameOn(Revert(edited, r).0, s, d) && SameBeside(Revert(edited, r).0, edited, d)
  {
    RevertsExactly(edited, d, r);
    assert Reverse(d).Keys == d.Keys;
    BackApplies(edited, d);
    AfterReverse(edited, d, r.applied);
  }

  /** Integrate, then any edits outside the patch's paths, then revert: the patch's paths are back to what
      they were before, and the edits stay. */
  lemma RevertUndoesIntegrate(s: Snap, a: Answers, edited: Snap, r: RevertAnswers)
    requires Integrate(s, a).1 == Integrated && Exact(s, a.applied, Between(s.head, a.pick.tree))
    requires edited.head == s.head && SameOn(edited, Integrate(s, a).0, Between(s.head, a.pick.tree))
    requires Answered(r, Between(s.head, a.pick.tree))
    requires Exact(edited, r.applied, Reverse(Between(s.head, a.pick.tree))) && (r.check <==> r.applied.Lands?)
    ensures var d := Between(s.head, a.pick.tree);
            var (back, outcome) := Revert(edited, r);
            && outcome == Reverted && back.head == s.head
            && SameOn(back, s, d) && SameBeside(back, edited, d)
  {
    var d := Between(s.head, a.pick.tree);
    IntegrateLands(s, a);
    NewSideIsIn(s, edited, d);
    RevertPutsBack(s, edited, d, r);
  }

  lemma NewSideIsIn(s: Snap, edited: Snap, d: Diff)
    requires SameOn(edited, Snap(s.head, Patched(s.index, d), Patched(s.work, d)), d)
    ensures HasNow(edited.index, d) && HasNow(edited.work, d)
  {
    forall p | p in d
      ensures At(edited.index, p) == d[p].now && At(edited.work, p) == d[p].now
    {
      PatchedAt(s.index, d, p);
      PatchedAt(s.work, d, p);
    }
  }

  lemma SameEverywhere(s: Snap, back: Snap, d: Diff)
    requires back.head == s.head && SameOn(back, s, d)
    requires SameBeside(back, Snap(s.head, Patched(s.index, d), Patched(s.work, d)), d)
    ensures back == s
  {
    forall p
      ensures At(back.index, p) == At(s.index, p) && At(back.work, p) == At(s.work, p)
    {
      PatchedAt(s.index, d, p);
      PatchedAt(s.work, d, p);
    }
    TreesEqual(back.index, s.index);
    TreesEqual(back.work, s.work);
  }

  lemma RevertRestores(s: Snap, landed: Snap, d: Diff, r: RevertAnswers)
    requires Applies(s, d) && HasWas(s.head, d) && forall p :: p in d ==> d[p].was != d[p].now
    requires landed == Snap(s.head, Patched(s.index, d), Patched(s.work, d))
    requires Answered(r, d) && Exact(landed, r.applied, Reverse(d)) && (r.check <==> r.applied.Lands?)
    ensures Revert(landed, r) == (s, Reverted)
  {
    NewSideIsIn(s, landed, d);
    RevertPutsBack(s, landed, d, r);
    SameEverywhere(s, Revert(landed, r).0, d);
  }

  /** With no edit between, index and worktree are exactly what they were. */
  lemma RoundTrip(s: Snap, a: Answers, t: Snap, d: Diff, r: RevertAnswers)
    requires Integrate(s, a) == (t, Integrated) && d == Between(s.head, a.pick.tree) && Exact(s, a.applied, d)
    requires Answered(r, d) && Exact(t, r.applied, Reverse(d)) && (r.check <==> r.applied.Lands?)
    ensures Revert(t, r) == (s, Reverted)
  {
    IntegrateLands(s, a);
    RevertRestores(s, t, d, r);
  }
}
