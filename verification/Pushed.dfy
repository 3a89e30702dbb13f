/** "Is this commit pushed": `RemoteContainsAny` over one remote, `RemotesContainAny` over all, and
    its use as the safety net of `TeamRemove`. */
module Pushed {
  import opened CommitGraph
  import opened Option

  datatype State = IsPushed | NotPushed | Unverified

  const MAX_REMOTE_HEADS: nat := 200

  datatype Ref = Ref(name: string, tip: Commit)

  /** One remote: its tracking refs here, the heads it lists live, and which of its git calls succeed
      (`refs` the local ref listing, `ls` the live head list, `fetch` the fetch of the missing heads).
      `brings` is what that fetch would add to the object store. */
  datatype Remote = Remote(refs: bool, tracking: seq<Ref>, ls: bool, heads: seq<Ref>, fetch: bool, brings: set<Commit>)

  datatype Exit = Zero | One | Fail

  /** Git's two containment questions about a commit and a tip, asked with the objects at hand:
      `merge-base --is-ancestor`, which can fail, and the filter of `for-each-ref --contains`. */
  datatype Git = Git(ancestor: (set<Commit>, Commit, Commit) -> Exit, contains: (set<Commit>, Commit, Commit) -> bool)

  ghost predicate Honest(g: Graph, git: Git) {
    && (forall objects, sha, tip :: git.ancestor(objects, sha, tip) == Zero ==> Sees(g, objects, tip, sha))
    && (forall objects, sha, tip :: git.ancestor(objects, sha, tip) == One ==> !Sees(g, objects, tip, sha))
    && forall objects, sha, tip :: git.contains(objects, sha, tip) <==> Sees(g, objects, tip, sha)
  }

  /** `for-each-ref --contains`: the first tracking ref, `HEAD` apart, that contains the commit. */
  function FirstTracking(git: Git, objects: set<Commit>, sha: Commit, refs: seq<Ref>): Option<string> {
    if refs == [] then None
    else if refs[0].name != "HEAD" && git.contains(objects, sha, refs[0].tip) then Some(refs[0].name)
    else FirstTracking(git, objects, sha, refs[1..])
  }

  /** The ancestry loop over the listed heads, in order. */
  function Scan(git: Git, objects: set<Commit>, sha: Commit, heads: seq<Ref>): (State, string) {
    if heads == [] then (NotPushed, "")
    else match git.ancestor(objects, sha, heads[0].tip)
      case Zero => (IsPushed, heads[0].name)
      case Fail => (Unverified, "")
      case One => Scan(git, objects, sha, heads[1..])
  }

  predicate AllPresent(objects: set<Commit>, heads: seq<Ref>) {
    forall i :: 0 <= i < |heads| ==> heads[i].tip in objects
  }

  /** The answer about one remote, and the objects afterwards. */
  function Answer(git: Git, objects: set<Commit>, sha: Commit, r: Remote): (State, string, set<Commit>) {
    if sha !in objects || !r.refs then (Unverified, "", objects)
    else
      var known := FirstTracking(git, objects, sha, r.tracking);
      if known.Some? then (IsPushed, known.value, objects)
      else if !r.ls || |r.heads| > MAX_REMOTE_HEADS then (Unverified, "", objects)
      else if AllPresent(objects, r.heads) then
        var (st, name) := Scan(git, objects, sha, r.heads);
        (st, name, objects)
      else if !r.fetch then (Unverified, "", objects)
      else if !AllPresent(objects + r.brings, r.heads) then (Unverified, "", objects + r.brings)
      else
        var (st, name) := Scan(git, objects + r.brings, sha, r.heads);
        (st, name, objects + r.brings)
  }

  predicate Counts(git: Git, objects: set<Commit>, sha: Commit, ref: Ref) {
    ref.name != "HEAD" && git.contains(objects, sha, ref.tip)
  }

  predicate NoneCounts(git: Git, objects: set<Commit>, sha: Commit, refs: seq<Ref>) {
    forall i :: 0 <= i < |refs| ==> !Counts(git, objects, sha, refs[i])
  }

  /** The first tracking ref that counts is at `i`. */
  predicate CountsFirst(git: Git, objects: set<Commit>, sha: Commit, refs: seq<Ref>, i: nat) {
    i < |refs| && Counts(git, objects, sha, refs[i]) && forall j :: 0 <= j < i ==> !Counts(git, objects, sha, refs[j])
  }

  /** Asked about the heads in order, git denies every one before `i`, and confirms that one. */
  predicate ConfirmsFirst(git: Git, objects: set<Commit>, sha: Commit, heads: seq<Ref>, i: nat) {
    && i < |heads| && git.ancestor(objects, sha, heads[i].tip) == Zero
    && forall j :: 0 <= j < i ==> git.ancestor(objects, sha, heads[j].tip) == One
  }

  lemma {:induction false} FirstTrackingExactly(git: Git, objects: set<Commit>, sha: Commit, refs: seq<Ref>)
    ensures FirstTracking(git, objects, sha, refs) == None <==> NoneCounts(git, objects, sha, refs)
    ensures forall i: nat :: CountsFirst(git, objects, sha, refs, i) ==>
              FirstTracking(git, objects, sha, refs) == Some(refs[i].name)
    ensures FirstTracking(git, objects, sha, refs).Some? ==> exists i: nat :: CountsFirst(git, objects, sha, refs, i)
  {
    if refs != [] {
      FirstTrackingExactly(git, objects, sha, refs[1..]);
      forall i: nat | 0 < i < |refs|
        ensures Counts(git, objects, sha, refs[i]) <==> Counts(git, objects, sha, refs[1..][i - 1])
        ensures CountsFirst(git, objects, sha, refs, i)
                <==> !Counts(git, objects, sha, refs[0]) && CountsFirst(git, objects, sha, refs[1..], i - 1)
      {
        CountsFurther(git, objects, sha, refs, i);
      }
      if Counts(git, objects, sha, refs[0]) {
        assert CountsFirst(git, objects, sha, refs, 0);
      } else if i: nat :| CountsFirst(git, objects, sha, refs[1..], i) {
        assert CountsFirst(git, objects, sha, refs, i + 1);
      }
    }
  }

  lemma CountsFurther(git: Git, objects: set<Commit>, sha: Commit, refs: seq<Ref>, i: nat)
    requires 0 < i < |refs|
    ensures CountsFirst(git, objects, sha, refs, i)
            <==> !Counts(git, objects, sha, refs[0]) && CountsFirst(git, objects, sha, refs[1..], i - 1)
  {
    if CountsFirst(git, objects, sha, refs[1..], i - 1) && !Counts(git, objects, sha, refs[0]) {
      forall j | 0 <= j < i
        ensures !Counts(git, objects, sha, refs[j])
      {
        assert j > 0 ==> refs[1..][j - 1] == refs[j];
      }
    }
  }

  lemma {:induction false} ScanExactly(git: Git, objects: set<Commit>, sha: Commit, heads: seq<Ref>)
    ensures Scan(git, objects, sha, heads).0 == NotPushed
            <==> forall i :: 0 <= i < |heads| ==> git.ancestor(objects, sha, heads[i].tip) == One
    ensures forall i: nat :: ConfirmsFirst(git, objects, sha, heads, i) ==>
              Scan(git, objects, sha, heads) == (IsPushed, heads[i].name)
    ensures Scan(git, objects, sha, heads).0 == IsPushed ==> exists i: nat :: ConfirmsFirst(git, objects, sha, heads, i)
    ensures Scan(git, objects, sha, heads).0 != IsPushed ==> Scan(git, objects, sha, heads).1 == ""
  {
    if heads != [] {
      ScanExactly(git, objects, sha, heads[1..]);
      forall i: nat | 0 < i < |heads|
        ensures ConfirmsFirst(git, objects, sha, heads, i)
                <==> git.ancestor(objects, sha, heads[0].tip) == One
                     && ConfirmsFirst(git, objects, sha, heads[1..], i - 1)
      {
        ConfirmsFurther(git, objects, sha, heads, i);
      }
      assert forall i :: 0 < i < |heads| ==> heads[i] == heads[1..][i - 1];
      if git.ancestor(objects, sha, heads[0].tip) == Zero {
        assert ConfirmsFirst(git, objects, sha, heads, 0);
      } else if i: nat :| ConfirmsFirst(git, objects, sha, heads[1..], i) {
        assert git.ancestor(objects, sha, heads[0].tip) == One ==> ConfirmsFirst(git, objects, sha, heads, i + 1);
      }
    }
  }

  lemma ConfirmsFurther(git: Git, objects: set<Commit>, sha: Commit, heads: seq<Ref>, i: nat)
    requires 0 < i < |heads|
    ensures ConfirmsFirst(git, objects, sha, heads, i)
            <==> git.ancestor(objects, sha, heads[0].tip) == One && ConfirmsFirst(git, objects, sha, heads[1..], i - 1)
  {
    if ConfirmsFirst(git, objects, sha, heads[1..], i - 1) && git.ancestor(objects, sha, heads[0].tip) == One {
      forall j | 0 <= j < i
        ensures git.ancestor(objects, sha, heads[j].tip) == One
      {
        assert j > 0 ==> heads[1..][j - 1] == heads[j];
      }
    }
  }

  /** The name a remote's answer gives: that of its first tracking ref that counts, and without one that of the
      first head git confirms. */
  ghost predicate NamedBy(git: Git, before: set<Commit>, after: set<Commit>, sha: Commit, r: Remote, head: string) {
    || (exists i: nat :: CountsFirst(git, before, sha, r.tracking, i) && r.tracking[i].name == head)
    || (NoneCounts(git, before, sha, r.tracking)
        && exists i: nat :: ConfirmsFirst(git, after, sha, r.heads, i) && r.heads[i].name == head)
  }

  lemma AnswerNames(git: Git, objects: set<Commit>, sha: Commit, r: Remote)
    ensures var (st, head, after) := Answer(git, objects, sha, r);
            if st == IsPushed then NamedBy(git, objects, after, sha, r, head) else head == ""
  {
    FirstTrackingExactly(git, objects, sha, r.tracking);
    ScanExactly(git, objects, sha, r.heads);
    ScanExactly(git, objects + r.brings, sha, r.heads);
  }

  /** The fetch happens exactly if the answer needs it, and nothing else touches the object store. */
  lemma FetchesExactly(git: Git, objects: set<Commit>, sha: Commit, r: Remote)
    ensures Answer(git, objects, sha, r).2 ==
            if && sha in objects && r.refs && NoneCounts(git, objects, sha, r.tracking)
               && r.ls && |r.heads| <= MAX_REMOTE_HEADS && !AllPresent(objects, r.heads) && r.fetch
            then objects + r.brings else objects
  {
    FirstTrackingExactly(git, objects, sha, r.tracking);
  }

  /** The remote really has the commit, on the branch named. */
  ghost predicate HasOn(g: Graph, sha: Commit, r: Remote, head: string) {
    || (exists i :: 0 <= i < |r.tracking| && r.tracking[i].name == head && head != "HEAD"
                    && Reaches(g, r.tracking[i].tip, sha))
    || (exists i :: 0 <= i < |r.heads| && r.heads[i].name == head && Reaches(g, r.heads[i].tip, sha))
  }

  lemma NamedReally(g: Graph, git: Git, before: set<Commit>, after: set<Commit>, sha: Commit, r: Remote, head: string)
    requires Honest(g, git) && NamedBy(git, before, after, sha, r, head)
    ensures HasOn(g, sha, r, head)
  {
    if i: nat :| CountsFirst(git, before, sha, r.tracking, i) && r.tracking[i].name == head {
      SeenIsReached(g, before, r.tracking[i].tip, sha);
    } else {
      var i: nat :| ConfirmsFirst(git, after, sha, r.heads, i) && r.heads[i].name == head;
      SeenIsReached(g, after, r.heads[i].tip, sha);
    }
  }

  lemma AnswerIsOnBranch(git: Git, objects: set<Commit>, sha: Commit, r: Remote)
    ensures var (st, head, _) := Answer(git, objects, sha, r);
            st == IsPushed ==> forall g: Graph :: Honest(g, git) ==> HasOn(g, sha, r, head)
  {
    var (st, head, after) := Answer(git, objects, sha, r);
    AnswerNames(git, objects, sha, r);
    if st == IsPushed {
      forall g: Graph | Honest(g, git)
        ensures HasOn(g, sha, r, head)
      {
        NamedReally(g, git, objects, after, sha, r, head);
      }
    }
  }

  lemma GrowsByFetch(git: Git, objects: set<Commit>, sha: Commit, r: Remote)
    ensures Answer(git, objects, sha, r).2 == objects || Answer(git, objects, sha, r).2 == objects + r.brings
  {
  }

  /** The object store when the walk comes to remote `k`. */
  function Walked(git: Git, objects: set<Commit>, sha: Commit, remotes: seq<Remote>, k: nat): set<Commit>
    requires k <= |remotes|
  {
    if k == 0 then objects else Answer(git, Walked(git, objects, sha, remotes, k - 1), sha, remotes[k - 1]).2
  }

  lemma {:induction false} WalkedRest(git: Git, objects: set<Commit>, sha: Commit, remotes: seq<Remote>, k: nat)
    requires k < |remotes|
    ensures var next := Answer(git, objects, sha, remotes[0]).2;
            Walked(git, objects, sha, remotes, k + 1) == Walked(git, next, sha, remotes[1..], k)
  {
    if k == 0 {
      assert Walked(git, objects, sha, remotes, 0) == objects;
    } else {
      WalkedRest(git, objects, sha, remotes, k - 1);
      assert remotes[1..][k - 1] == remotes[k];
    }
  }

  /** None of the first `k` remotes answers pushed at its turn. */
  predicate NonePushed(git: Git, objects: set<Commit>, sha: Commit, remotes: seq<Remote>, k: nat)
    requires k <= |remotes|
  {
    forall i: nat :: i < k ==> Answer(git, Walked(git, objects, sha, remotes, i), sha, remotes[i]).0 != IsPushed
  }

  /** Remote `k` answers pushed at its turn, for its branch `head`, and no remote before it does. */
  predicate AnsweredFirst(git: Git, objects: set<Commit>, sha: Commit, remotes: seq<Remote>, k: nat, head: string,
                          after: set<Commit>)
    requires k < |remotes|
  {
    && Answer(git, Walked(git, objects, sha, remotes, k), sha, remotes[k]) == (IsPushed, head, after)
    && NonePushed(git, objects, sha, remotes, k)
  }

  /** The object store of the repository: fetches grow it, nothing else changes. */
  class Repository {
    var objects: set<Commit>

    constructor (objects: set<Commit>)
      ensures this.objects == objects
    {
      this.objects := objects;
    }

    /** `RemoteContainsAny`: when it answers pushed, the remote has the commit on the branch it names. */
    method RemoteContainsAny(git: Git, sha: Commit, r: Remote) returns (state: State, head: string)
      modifies this
      ensures (state, head, objects) == Answer(git, old(objects), sha, r)
      ensures state == IsPushed ==> forall g: Graph :: Honest(g, git) ==> HasOn(g, sha, r, head)
      ensures if state == IsPushed then NamedBy(git, old(objects), objects, sha, r, head) else head == ""
    {
      state, head := Ask(git, sha, r);
      AnswerNames(git, old(objects), sha, r);
      AnswerIsOnBranch(git, old(objects), sha, r);
    }

    /** Its questions in order: the tracking refs, the live heads, the fetch of the missing ones, each head. */
    method Ask(git: Git, sha: Commit, r: Remote) returns (state: State, head: string)
      modifies this
      ensures (state, head, objects) == Answer(git, old(objects), sha, r)
    {
      if sha !in objects { return Unverified, ""; }
      if !r.refs { return Unverified, ""; }
      var i := 0;
      assert r.tracking[0..] == r.tracking;
      while i < |r.tracking|
        invariant 0 <= i <= |r.tracking| && objects == old(objects)
        invariant FirstTracking(git, objects, sha, r.tracking) == FirstTracking(git, objects, sha, r.tracking[i..])
      {
        if r.tracking[i].name != "HEAD" && git.contains(objects, sha, r.tracking[i].tip) {
          return IsPushed, r.tracking[i].name;
        }
        i := i + 1;
      }
      if !r.ls { return Unverified, ""; }
      var tips := r.heads;
      if |tips| > MAX_REMOTE_HEADS { return Unverified, ""; }
      var missing: seq<string> := [];
      i := 0;
      while i < |tips|
        invariant 0 <= i <= |tips| && objects == old(objects)
        invariant missing == [] <==> AllPresent(objects, tips[..i])
      {
        assert tips[..i + 1] == tips[..i] + [tips[i]];
        if tips[i].tip !in objects { missing := missing + [tips[i].name]; }
        i := i + 1;
      }
      assert tips[..i] == tips;
      if |missing| > 0 {
        if !r.fetch { return Unverified, ""; }
        objects := objects + r.brings;
        i := 0;
        while i < |tips|
          invariant 0 <= i <= |tips| && objects == old(objects) + r.brings
          invariant forall j :: 0 <= j < i ==> tips[j].tip in objects
        {
          if tips[i].tip !in objects { return Unverified, ""; }
          i := i + 1;
        }
      }
      i := 0;
      assert tips[0..] == tips;
      ghost var present := objects;
      while i < |tips|
        invariant 0 <= i <= |tips| && objects == present
        invariant Scan(git, objects, sha, tips) == Scan(git, objects, sha, tips[i..])
      {
        match git.ancestor(objects, sha, tips[i].tip) {
          case Zero => return IsPushed, tips[i].name;
          case Fail => return Unverified, "";
          case One =>
        }
        i := i + 1;
      }
      return NotPushed, "";
    }

    /** `RemotesContainAny`: `remote` is the index of the one that has the commit, on the branch `head`, the first
        that answered pushed when its turn came; `listed` is `None` when the remotes cannot be listed. */
    method RemotesContainAny(git: Git, sha: Commit, listed: Option<seq<Remote>>)
      returns (state: State, remote: nat, head: string)
      modifies this
      ensures listed.None? ==> state == Unverified && objects == old(objects)
      ensures listed.Some? ==> (state, objects) == OverAll(git, old(objects), sha, listed.value)
      ensures state == IsPushed ==> listed.Some? && remote < |listed.value|
      ensures state == IsPushed ==> forall g: Graph :: Honest(g, git) ==> HasOn(g, sha, listed.value[remote], head)
      ensures state == IsPushed ==> AnsweredFirst(git, old(objects), sha, listed.value, remote, head, objects)
      ensures state != IsPushed ==> remote == 0 && head == ""
    {
      state, remote, head := AskAll(git, sha, listed);
      if state == IsPushed {
        AnswerIsOnBranch(git, Walked(git, old(objects), sha, listed.value, remote), sha, listed.value[remote]);
      }
    }

    /** The loop over the remotes. */
    method AskAll(git: Git, sha: Commit, listed: Option<seq<Remote>>) returns (state: State, remote: nat, head: string)
      modifies this
      ensures listed.None? ==> state == Unverified && objects == old(objects)
      ensures listed.Some? ==> (state, objects) == OverAll(git, old(objects), sha, listed.value)
      ensures state == IsPushed ==> listed.Some? && remote < |listed.value|
      ensures state == IsPushed ==> AnsweredFirst(git, old(objects), sha, listed.value, remote, head, objects)
      ensures state != IsPushed ==> remote == 0 && head == ""
    {
      if listed.None? { return Unverified, 0, ""; }
      var remotes := listed.value;
      var unverified := false;
      var i := 0;
      assert remotes[0..] == remotes;
      while i < |remotes|
        invariant 0 <= i <= |remotes|
        invariant AtTurn(git, old(objects), sha, remotes, i, objects, unverified)
      {
        NextTurn(git, old(objects), sha, remotes, i, objects, unverified);
        var st, h := RemoteContainsAny(git, sha, remotes[i]);
        match st {
          case IsPushed => return IsPushed, i, h;
          case Unverified => unverified := true;
          case NotPushed =>
        }
        i := i + 1;
      }
      return if unverified then Unverified else NotPushed, 0, "";
    }
  }

  /** The walk has come to remote `i`: none before it answered pushed, and what is left decides. */
  ghost predicate AtTurn(git: Git, start: set<Commit>, sha: Commit, remotes: seq<Remote>, i: nat, objects: set<Commit>,
                         unverified: bool)
    requires i <= |remotes|
  {
    && objects == Walked(git, start, sha, remotes, i) && NonePushed(git, start, sha, remotes, i)
    && OverAll(git, start, sha, remotes) ==
       var (st, objs) := OverAll(git, objects, sha, remotes[i..]);
       (if st == NotPushed && unverified then Unverified else st, objs)
  }

  lemma NextTurn(git: Git, start: set<Commit>, sha: Commit, remotes: seq<Remote>, i: nat, objects: set<Commit>,
                 unverified: bool)
    requires i < |remotes| && AtTurn(git, start, sha, remotes, i, objects, unverified)
    ensures var (st, head, next) := Answer(git, objects, sha, remotes[i]);
            if st == IsPushed
            then OverAll(git, start, sha, remotes) == (IsPushed, next)
                 && AnsweredFirst(git, start, sha, remotes, i, head, next)
            else AtTurn(git, start, sha, remotes, i + 1, next, unverified || st == Unverified)
  {
    assert remotes[i..][0] == remotes[i] && remotes[i..][1..] == remotes[i + 1..];
  }

  /** All remotes in order, the first one that has the commit ending the walk. */
  function OverAll(git: Git, objects: set<Commit>, sha: Commit, remotes: seq<Remote>): (State, set<Commit>)
    decreases |remotes|
  {
    if remotes == [] then (NotPushed, objects)
    else
      var (st, _, objs) := Answer(git, objects, sha, remotes[0]);
      if st == IsPushed then (IsPushed, objs)
      else
        var (rest, end) := OverAll(git, objs, sha, remotes[1..]);
        (if rest == NotPushed && st == Unverified then Unverified else rest, end)
  }

  // ---------------------------------------------------------------------------------------
  // Soundness
  // ---------------------------------------------------------------------------------------

  ghost predicate HeadReaches(g: Graph, sha: Commit, refs: seq<Ref>) {
    exists i :: 0 <= i < |refs| && Reaches(g, refs[i].tip, sha)
  }

  /** The symbolic `HEAD` of a remote is not counted. */
  ghost predicate TrackingReaches(g: Graph, sha: Commit, refs: seq<Ref>) {
    exists i :: 0 <= i < |refs| && refs[i].name != "HEAD" && Reaches(g, refs[i].tip, sha)
  }

  ghost predicate OnRemote(g: Graph, sha: Commit, r: Remote) {
    HeadReaches(g, sha, r.heads) || TrackingReaches(g, sha, r.tracking)
  }

  predicate TrackingPresent(objects: set<Commit>, refs: seq<Ref>) {
    forall i :: 0 <= i < |refs| ==> refs[i].tip in objects
  }

  /** The repository is not shallow, a fetch leaves it so, and its own refs point to objects it has. */
  ghost predicate Complete(g: Graph, objects: set<Commit>, r: Remote) {
    Closed(g, objects) && Closed(g, objects + r.brings) && TrackingPresent(objects, r.tracking)
  }

  /** Git sees every way from a commit it has to this one. */
  ghost predicate FullSight(g: Graph, objects: set<Commit>, sha: Commit) {
    forall tip :: tip in objects && Reaches(g, tip, sha) ==> Sees(g, objects, tip, sha)
  }

  lemma ClosedHasFullSight(g: Graph, objects: set<Commit>, sha: Commit)
    requires Closed(g, objects)
    ensures FullSight(g, objects, sha)
  {
    forall tip | tip in objects && Reaches(g, tip, sha)
      ensures Sees(g, objects, tip, sha)
    {
      ClosedSeesAll(g, objects, tip, sha);
    }
  }

  lemma {:induction false} TrackingSound(g: Graph, git: Git, objects: set<Commit>, sha: Commit, refs: seq<Ref>)
    requires Honest(g, git)
    ensures FirstTracking(git, objects, sha, refs).Some? ==> TrackingReaches(g, sha, refs)
    ensures FullSight(g, objects, sha) && TrackingPresent(objects, refs)
            ==> (FirstTracking(git, objects, sha, refs).Some? <==> TrackingReaches(g, sha, refs))
  {
    if refs != [] {
      var rest := refs[1..];
      TrackingSound(g, git, objects, sha, rest);
      if TrackingReaches(g, sha, rest) {
        var i :| 0 <= i < |rest| && rest[i].name != "HEAD" && Reaches(g, rest[i].tip, sha);
        assert refs[i + 1] == rest[i];
      }
      if git.contains(objects, sha, refs[0].tip) {
        SeenIsReached(g, objects, refs[0].tip, sha);
      }
      if TrackingReaches(g, sha, refs) {
        var i :| 0 <= i < |refs| && refs[i].name != "HEAD" && Reaches(g, refs[i].tip, sha);
        assert i > 0 ==> rest[i - 1] == refs[i];
      }
    }
  }

  lemma {:induction false} ScanSound(g: Graph, git: Git, objects: set<Commit>, sha: Commit, heads: seq<Ref>)
    requires Honest(g, git)
    ensures Scan(git, objects, sha, heads).0 == IsPushed ==> HeadReaches(g, sha, heads)
    ensures Scan(git, objects, sha, heads).0 == NotPushed && FullSight(g, objects, sha) && AllPresent(objects, heads)
            ==> !HeadReaches(g, sha, heads)
  {
    if heads != [] {
      var rest := heads[1..];
      ScanSound(g, git, objects, sha, rest);
      if HeadReaches(g, sha, rest) {
        var i :| 0 <= i < |rest| && Reaches(g, rest[i].tip, sha);
        assert heads[i + 1] == rest[i];
      }
      if git.ancestor(objects, sha, heads[0].tip) == Zero {
        SeenIsReached(g, objects, heads[0].tip, sha);
      }
      if HeadReaches(g, sha, heads) {
        var i :| 0 <= i < |heads| && Reaches(g, heads[i].tip, sha);
        assert i > 0 ==> rest[i - 1] == heads[i];
      }
      if AllPresent(objects, heads) {
        assert forall i :: 0 <= i < |rest| ==> rest[i] == heads[i + 1];
      }
    }
  }

  /** Sound over every commit graph and head list: `pushed` means a head or a tracking ref reaches the
      commit, `not_pushed` that none does. The second half needs a repository that is not shallow. */
  lemma AnswerSound(g: Graph, git: Git, objects: set<Commit>, sha: Commit, r: Remote)
    requires Honest(g, git)
    ensures Answer(git, objects, sha, r).0 == IsPushed ==> OnRemote(g, sha, r)
    ensures Answer(git, objects, sha, r).0 == NotPushed && Complete(g, objects, r) ==> !OnRemote(g, sha, r)
  {
    TrackingSound(g, git, objects, sha, r.tracking);
    ScanSound(g, git, objects, sha, r.heads);
    ScanSound(g, git, objects + r.brings, sha, r.heads);
    if Complete(g, objects, r) {
      ClosedHasFullSight(g, objects, sha);
      ClosedHasFullSight(g, objects + r.brings, sha);
    }
  }

  ghost predicate NeverFails(git: Git, sha: Commit) {
    forall objects, tip :: sha in objects && tip in objects ==> git.ancestor(objects, sha, tip) != Fail
  }

  /** `not_pushed` is right about every remote whose tracking refs point to present commits. */
  ghost predicate NotPushedIsRight(g: Graph, git: Git, objects: set<Commit>, brings: set<Commit>, sha: Commit) {
    forall r: Remote ::
      (r.brings == brings && TrackingPresent(objects, r.tracking) && Answer(git, objects, sha, r).0 == NotPushed) ==>
        !OnRemote(g, sha, r)
  }

  /** A remote with a single head, or a single tracking ref. */
  function OneHead(tip: Commit, brings: set<Commit>): Remote {
    Remote(true, [], true, [Ref("main", tip)], true, brings)
  }

  function OneTracking(tip: Commit, brings: set<Commit>): Remote {
    Remote(true, [Ref("main", tip)], true, [], true, brings)
  }

  lemma UnseenIsDenied(g: Graph, git: Git, objects: set<Commit>, sha: Commit, tip: Commit)
    requires Honest(g, git) && NeverFails(git, sha) && sha in objects && tip in objects && !Sees(g, objects, tip, sha)
    ensures Scan(git, objects, sha, [Ref("main", tip)]).0 == NotPushed
    ensures FirstTracking(git, objects, sha, [Ref("main", tip)]) == None
  {
    var refs := [Ref("main", tip)];
    assert refs[1..] == [];
    assert Scan(git, objects, sha, refs[1..]).0 == NotPushed;
  }

  lemma SeesMore(g: Graph, objects: set<Commit>, more: set<Commit>, tip: Commit, sha: Commit)
    requires Sees(g, objects, tip, sha)
    ensures Sees(g, objects + more, tip, sha)
  {
    var path :| Walk(g, objects, path, tip, sha);
    assert Walk(g, objects + more, path, tip, sha);
  }

  lemma BlindIsWrong(g: Graph, git: Git, objects: set<Commit>, brings: set<Commit>, sha: Commit, tip: Commit)
    requires Honest(g, git) && NeverFails(git, sha) && sha in objects && Reaches(g, tip, sha)
    requires var seen := if tip in objects then objects else objects + brings; tip in seen && !Sees(g, seen, tip, sha)
    ensures var r := OneHead(tip, brings); Answer(git, objects, sha, r).0 == NotPushed && OnRemote(g, sha, r)
    ensures tip in objects ==>
              var r := OneTracking(tip, brings); Answer(git, objects, sha, r).0 == NotPushed && OnRemote(g, sha, r)
  {
    var seen := if tip in objects then objects else objects + brings;
    UnseenIsDenied(g, git, seen, sha, tip);
    assert OneHead(tip, brings).heads[0].tip == tip;
    assert OneTracking(tip, brings).tracking[0] == Ref("main", tip);
  }

  /** When exactly `not_pushed` is right, for heads and tracking refs alike: the objects here, and those
      with what the fetch brings, show every way to the commit. A repository that is not shallow does. */
  lemma NotPushedExactly(g: Graph, git: Git, objects: set<Commit>, brings: set<Commit>, sha: Commit)
    requires Honest(g, git) && NeverFails(git, sha) && sha in objects
    ensures NotPushedIsRight(g, git, objects, brings, sha)
            <==> FullSight(g, objects, sha) && FullSight(g, objects + brings, sha)
  {
    if tip :| tip in objects && Reaches(g, tip, sha) && !Sees(g, objects, tip, sha) {
      BlindIsWrong(g, git, objects, brings, sha, tip);
      assert OneHead(tip, brings).brings == brings && OneHead(tip, brings).tracking == [];
      assert TrackingPresent(objects, OneHead(tip, brings).tracking);
    } else if tip :| tip in objects + brings && Reaches(g, tip, sha) && !Sees(g, objects + brings, tip, sha) {
      if tip in objects {
        SeesMore(g, objects, brings, tip, sha);
      }
      BlindIsWrong(g, git, objects, brings, sha, tip);
      assert TrackingPresent(objects, OneHead(tip, brings).tracking);
    } else {
      forall r: Remote | r.brings == brings && TrackingPresent(objects, r.tracking)
                         && Answer(git, objects, sha, r).0 == NotPushed
        ensures !OnRemote(g, sha, r)
      {
        TrackingSound(g, git, objects, sha, r.tracking);
        ScanSound(g, git, objects, sha, r.heads);
        ScanSound(g, git, objects + brings, sha, r.heads);
      }
    }
  }

  /** The smallest case where they do not: in a shallow repository that has a head and the commit, but not what lies
      between them, an honest git says "no ancestor" and the answer is `not_pushed`. */
  lemma ShallowIsUnsound(g: Graph, git: Git, sha: Commit, mid: Commit, tip: Commit)
    requires Honest(g, git)
    requires sha != mid && mid != tip && sha != tip && g(tip) == {mid} && g(mid) == {sha}
    requires git.ancestor({sha, tip}, sha, tip) != Fail
    ensures var r := Remote(true, [], true, [Ref("main", tip)], true, {});
            Answer(git, {sha, tip}, sha, r).0 == NotPushed && OnRemote(g, sha, r)
  {
    var r := Remote(true, [], true, [Ref("main", tip)], true, {});
    var objects := {sha, tip};
    if Sees(g, objects, tip, sha) {
      var next := FirstStep(g, objects, tip, sha);
      assert false;
    }
    var way := [tip, mid, sha];
    assert PathTo(g, way, tip, sha);
    assert Reaches(g, r.heads[0].tip, sha);
    assert Scan(git, objects, sha, r.heads[1..]).0 == NotPushed;
  }

  // ---------------------------------------------------------------------------------------
  // Over several remotes
  // ---------------------------------------------------------------------------------------

  ghost predicate AllComplete(g: Graph, objects: set<Commit>, remotes: seq<Remote>) {
    forall i :: 0 <= i < |remotes| ==> Complete(g, objects, remotes[i])
  }

  /** A fetch for one remote does not undo what the others need. */
  lemma StaysComplete(g: Graph, objects: set<Commit>, more: set<Commit>, r: Remote)
    requires Complete(g, objects, r) && Closed(g, objects + more)
    ensures Complete(g, objects + more, r)
  {
    forall c | c in objects + more + r.brings
      ensures g(c) <= objects + more + r.brings
    {
      assert c in objects + more || c in objects + r.brings;
    }
  }

  lemma RestComplete(g: Graph, git: Git, objects: set<Commit>, sha: Commit, remotes: seq<Remote>)
    requires remotes != [] && AllComplete(g, objects, remotes)
    ensures AllComplete(g, Answer(git, objects, sha, remotes[0]).2, remotes[1..])
  {
    var next := Answer(git, objects, sha, remotes[0]).2;
    GrowsByFetch(git, objects, sha, remotes[0]);
    forall i | 0 <= i < |remotes[1..]|
      ensures Complete(g, next, remotes[1..][i])
    {
      assert remotes[1..][i] == remotes[i + 1];
      StaysComplete(g, objects, remotes[0].brings, remotes[i + 1]);
    }
  }

  ghost predicate OnSome(g: Graph, sha: Commit, remotes: seq<Remote>) {
    exists i :: 0 <= i < |remotes| && OnRemote(g, sha, remotes[i])
  }

  lemma SomeOfRest(g: Graph, sha: Commit, remotes: seq<Remote>)
    requires remotes != []
    ensures OnSome(g, sha, remotes) <==> OnRemote(g, sha, remotes[0]) || OnSome(g, sha, remotes[1..])
  {
    if OnSome(g, sha, remotes) {
      var i :| 0 <= i < |remotes| && OnRemote(g, sha, remotes[i]);
      assert i > 0 ==> remotes[1..][i - 1] == remotes[i];
    }
    if OnSome(g, sha, remotes[1..]) {
      var i :| 0 <= i < |remotes[1..]| && OnRemote(g, sha, remotes[1..][i]);
      assert remotes[i + 1] == remotes[1..][i];
    }
  }

  /** The answer over all remotes is sound although each fetch changes what the next one sees. */
  lemma {:induction false} OverAllSound(g: Graph, git: Git, objects: set<Commit>, sha: Commit, remotes: seq<Remote>)
    requires Honest(g, git)
    ensures OverAll(git, objects, sha, remotes).0 == IsPushed ==> OnSome(g, sha, remotes)
    ensures OverAll(git, objects, sha, remotes).0 == NotPushed && AllComplete(g, objects, remotes)
            ==> !OnSome(g, sha, remotes)
    decreases |remotes|
  {
    if remotes != [] {
      AnswerSound(g, git, objects, sha, remotes[0]);
      SomeOfRest(g, sha, remotes);
      OverAllSound(g, git, Answer(git, objects, sha, remotes[0]).2, sha, remotes[1..]);
      if AllComplete(g, objects, remotes) {
        RestComplete(g, git, objects, sha, remotes);
      }
    }
  }

  // ---------------------------------------------------------------------------------------
  // Does the order of the remotes matter?
  // ---------------------------------------------------------------------------------------

  /** What a remote needs from the network does not hang on objects another remote's fetch may bring:
      it fails before the heads matter, has all its heads here, or gets the missing ones itself. */
  predicate Settled(objects: set<Commit>, r: Remote) {
    || !r.refs || !r.ls || |r.heads| > MAX_REMOTE_HEADS
    || AllPresent(objects, r.heads)
    || (r.fetch && AllPresent(objects + r.brings, r.heads))
  }

  /** The answer in terms of the graph alone, for a settled remote. */
  ghost function Meaning(g: Graph, sha: Commit, r: Remote): State {
    if !r.refs then Unverified
    else if TrackingReaches(g, sha, r.tracking) then IsPushed
    else if !r.ls || |r.heads| > MAX_REMOTE_HEADS then Unverified
    else if HeadReaches(g, sha, r.heads) then IsPushed
    else NotPushed
  }

  lemma {:induction false} ScanDecides(git: Git, objects: set<Commit>, sha: Commit, heads: seq<Ref>)
    requires NeverFails(git, sha) && sha in objects && AllPresent(objects, heads)
    ensures Scan(git, objects, sha, heads).0 != Unverified
  {
    if heads != [] {
      assert heads[0].tip in objects;
      assert forall i :: 0 <= i < |heads[1..]| ==> heads[1..][i] == heads[i + 1];
      ScanDecides(git, objects, sha, heads[1..]);
    }
  }

  lemma SettledAnswer(g: Graph, git: Git, objects: set<Commit>, sha: Commit, r: Remote)
    requires Honest(g, git) && NeverFails(git, sha) && sha in objects
    requires Complete(g, objects, r) && Settled(objects, r)
    ensures Answer(git, objects, sha, r).0 == Meaning(g, sha, r)
  {
    TrackingSound(g, git, objects, sha, r.tracking);
    ScanSound(g, git, objects, sha, r.heads);
    ScanSound(g, git, objects + r.brings, sha, r.heads);
    ClosedHasFullSight(g, objects, sha);
    ClosedHasFullSight(g, objects + r.brings, sha);
    if AllPresent(objects, r.heads) {
      ScanDecides(git, objects, sha, r.heads);
    } else if AllPresent(objects + r.brings, r.heads) {
      ScanDecides(git, objects + r.brings, sha, r.heads);
    }
  }

  /** A remote's answer is the same here and in a full clone exactly when the remote is settled, or a
      listed tracking ref decides. Where neither holds, what an earlier remote fetched can change it. */
  lemma StoreFreeExactly(g: Graph, git: Git, objects: set<Commit>, more: set<Commit>, sha: Commit, r: Remote)
    requires Honest(g, git) && NeverFails(git, sha) && sha in objects
    requires Complete(g, objects, r) && Closed(g, objects + more) && AllPresent(objects + more, r.heads)
    ensures Answer(git, objects, sha, r).0 == Answer(git, objects + more, sha, r).0
            <==> Settled(objects, r) || TrackingReaches(g, sha, r.tracking)
  {
    StaysComplete(g, objects, more, r);
    SettledAnswer(g, git, objects + more, sha, r);
    TrackingSound(g, git, objects, sha, r.tracking);
    ClosedHasFullSight(g, objects, sha);
    if Settled(objects, r) {
      SettledAnswer(g, git, objects, sha, r);
    }
  }

  ghost predicate AllSettled(objects: set<Commit>, remotes: seq<Remote>) {
    forall i :: 0 <= i < |remotes| ==> Settled(objects, remotes[i])
  }

  ghost predicate SomeMeans(g: Graph, sha: Commit, remotes: seq<Remote>, st: State) {
    exists i :: 0 <= i < |remotes| && Meaning(g, sha, remotes[i]) == st
  }

  /** The largest of the answers, with `not_pushed` < `unverified` < `pushed`. */
  ghost function Largest(g: Graph, sha: Commit, remotes: seq<Remote>): State {
    if SomeMeans(g, sha, remotes, IsPushed) then IsPushed
    else if SomeMeans(g, sha, remotes, Unverified) then Unverified
    else NotPushed
  }

  lemma MeansOfRest(g: Graph, sha: Commit, remotes: seq<Remote>, st: State)
    requires remotes != []
    ensures SomeMeans(g, sha, remotes, st) <==> Meaning(g, sha, remotes[0]) == st || SomeMeans(g, sha, remotes[1..], st)
  {
    if SomeMeans(g, sha, remotes, st) {
      var i :| 0 <= i < |remotes| && Meaning(g, sha, remotes[i]) == st;
      assert i > 0 ==> remotes[1..][i - 1] == remotes[i];
    }
    if SomeMeans(g, sha, remotes[1..], st) {
      var i :| 0 <= i < |remotes[1..]| && Meaning(g, sha, remotes[1..][i]) == st;
      assert remotes[i + 1] == remotes[1..][i];
    }
  }

  lemma RestSettled(git: Git, objects: set<Commit>, sha: Commit, remotes: seq<Remote>)
    requires remotes != [] && AllSettled(objects, remotes)
    ensures AllSettled(Answer(git, objects, sha, remotes[0]).2, remotes[1..])
  {
    GrowsByFetch(git, objects, sha, remotes[0]);
    assert forall i :: 0 <= i < |remotes[1..]| ==> remotes[1..][i] == remotes[i + 1];
  }

  lemma {:induction false} OverAllIsLargest(g: Graph, git: Git, objects: set<Commit>, sha: Commit, remotes: seq<Remote>)
    requires Honest(g, git) && NeverFails(git, sha) && sha in objects
    requires AllComplete(g, objects, remotes) && AllSettled(objects, remotes)
    ensures OverAll(git, objects, sha, remotes).0 == Largest(g, sha, remotes)
    decreases |remotes|
  {
    if remotes != [] {
      SettledAnswer(g, git, objects, sha, remotes[0]);
      GrowsByFetch(git, objects, sha, remotes[0]);
      RestComplete(g, git, objects, sha, remotes);
      RestSettled(git, objects, sha, remotes);
      OverAllIsLargest(g, git, Answer(git, objects, sha, remotes[0]).2, sha, remotes[1..]);
      MeansOfRest(g, sha, remotes, IsPushed);
      MeansOfRest(g, sha, remotes, Unverified);
    }
  }

  lemma SameMeanings(g: Graph, sha: Commit, one: seq<Remote>, other: seq<Remote>, st: State)
    requires forall r :: r in one ==> r in other
    ensures SomeMeans(g, sha, one, st) ==> SomeMeans(g, sha, other, st)
  {
    if i :| 0 <= i < |one| && Meaning(g, sha, one[i]) == st {
      assert one[i] in other;
    }
  }

  /** The order in which git lists settled remotes does not matter. */
  lemma OrderIsFree(g: Graph, git: Git, objects: set<Commit>, sha: Commit, one: seq<Remote>, other: seq<Remote>)
    requires Honest(g, git) && NeverFails(git, sha) && sha in objects
    requires AllComplete(g, objects, one) && AllSettled(objects, one)
    requires forall r :: r in one <==> r in other
    ensures OverAll(git, objects, sha, one).0 == OverAll(git, objects, sha, other).0
  {
    forall i | 0 <= i < |other|
      ensures Complete(g, objects, other[i]) && Settled(objects, other[i])
    {
      assert other[i] in one;
    }
    OverAllIsLargest(g, git, objects, sha, one);
    OverAllIsLargest(g, git, objects, sha, other);
    SameMeanings(g, sha, one, other, IsPushed);
    SameMeanings(g, sha, one, other, Unverified);
    SameMeanings(g, sha, other, one, IsPushed);
    SameMeanings(g, sha, other, one, Unverified);
  }

  function Larger(a: State, b: State): State {
    if a == IsPushed || b == IsPushed then IsPushed
    else if a == Unverified || b == Unverified then Unverified
    else NotPushed
  }

  lemma OverTwo(git: Git, objects: set<Commit>, sha: Commit, a: Remote, b: Remote)
    ensures var (first, _, next) := Answer(git, objects, sha, a);
            OverAll(git, objects, sha, [a, b]).0
            == if first == IsPushed then IsPushed else Larger(first, Answer(git, next, sha, b).0)
  {
    var next := Answer(git, objects, sha, a).2;
    var end := Answer(git, next, sha, b).2;
    assert [a, b][1..] == [b] && [b][1..] == [];
    assert OverAll(git, end, sha, []).0 == NotPushed;
    assert OverAll(git, next, sha, [b]).0 == Answer(git, next, sha, b).0;
  }

  /** An unsettled remote that no tracking ref decides is unverified here. */
  lemma UnsettledIsUnverified(g: Graph, git: Git, objects: set<Commit>, sha: Commit, r: Remote)
    requires Honest(g, git) && Complete(g, objects, r) && !Settled(objects, r) && !TrackingReaches(g, sha, r.tracking)
    ensures Answer(git, objects, sha, r).0 == Unverified
  {
    TrackingSound(g, git, objects, sha, r.tracking);
  }

  /** Exactly when the order of two remotes matters, the first of them settled: no tracking ref of the other
      decides, it is settled only after the first one's fetch, and what it then answers changes the larger
      of the two - the first one did not have the commit, and either denied it or the other has it. */
  lemma TwoOrdersExactly(g: Graph, git: Git, objects: set<Commit>, sha: Commit, a: Remote, b: Remote)
    requires Honest(g, git) && NeverFails(git, sha) && sha in objects
    requires Complete(g, objects, a) && Complete(g, objects, b) && Settled(objects, a)
    ensures var next := Answer(git, objects, sha, a).2;
            var first := Meaning(g, sha, a);
            OverAll(git, objects, sha, [a, b]).0 != OverAll(git, objects, sha, [b, a]).0
            <==> && !Settled(objects, b) && !TrackingReaches(g, sha, b.tracking) && Settled(next, b)
                 && first != IsPushed && (first == NotPushed || HeadReaches(g, sha, b.heads))
  {
    var next := Answer(git, objects, sha, a).2;
    var after := Answer(git, objects, sha, b).2;
    OverTwo(git, objects, sha, a, b);
    OverTwo(git, objects, sha, b, a);
    GrowsByFetch(git, objects, sha, a);
    GrowsByFetch(git, objects, sha, b);
    StaysComplete(g, objects, a.brings, b);
    StaysComplete(g, objects, b.brings, a);
    SettledAnswer(g, git, objects, sha, a);
    SettledAnswer(g, git, after, sha, a);
    SecondAnswer(g, git, objects, next, sha, b);
  }

  /** What the second remote answers at first and in the grown store. */
  lemma SecondAnswer(g: Graph, git: Git, objects: set<Commit>, next: set<Commit>, sha: Commit, b: Remote)
    requires Honest(g, git) && NeverFails(git, sha) && sha in objects && objects <= next
    requires Complete(g, objects, b) && Complete(g, next, b)
    ensures Settled(objects, b) || TrackingReaches(g, sha, b.tracking)
            ==> Answer(git, next, sha, b).0 == Answer(git, objects, sha, b).0
    ensures !Settled(objects, b) && !TrackingReaches(g, sha, b.tracking)
            ==> && Answer(git, objects, sha, b).0 == Unverified
                && Answer(git, next, sha, b).0 == if Settled(next, b) then Meaning(g, sha, b) else Unverified
  {
    TrackingSound(g, git, objects, sha, b.tracking);
    TrackingSound(g, git, next, sha, b.tracking);
    ClosedHasFullSight(g, objects, sha);
    ClosedHasFullSight(g, next, sha);
    if Settled(objects, b) {
      SettledAnswer(g, git, objects, sha, b);
      SettledAnswer(g, git, next, sha, b);
    } else if !TrackingReaches(g, sha, b.tracking) {
      UnsettledIsUnverified(g, git, objects, sha, b);
      if Settled(next, b) {
        SettledAnswer(g, git, next, sha, b);
      } else {
        UnsettledIsUnverified(g, git, next, sha, b);
      }
    }
  }

  /** What a remote answers: its meaning when it is settled or a tracking ref decides, else nothing certain. */
  lemma AnswerExactly(g: Graph, git: Git, objects: set<Commit>, sha: Commit, r: Remote)
    requires Honest(g, git) && NeverFails(git, sha) && sha in objects && Complete(g, objects, r)
    ensures Answer(git, objects, sha, r).0
            == if Settled(objects, r) || TrackingReaches(g, sha, r.tracking) then Meaning(g, sha, r) else Unverified
  {
    if Settled(objects, r) {
      SettledAnswer(g, git, objects, sha, r);
    } else if TrackingReaches(g, sha, r.tracking) {
      TrackingSound(g, git, objects, sha, r.tracking);
      ClosedHasFullSight(g, objects, sha);
    } else {
      UnsettledIsUnverified(g, git, objects, sha, r);
    }
  }

  /** When its turn comes remote `k` is settled, by what the walk fetched before, or a tracking ref decides. */
  ghost predicate Says(g: Graph, git: Git, objects: set<Commit>, sha: Commit, remotes: seq<Remote>, k: nat, st: State)
    requires k < |remotes|
  {
    && (Settled(Walked(git, objects, sha, remotes, k), remotes[k]) || TrackingReaches(g, sha, remotes[k].tracking))
    && Meaning(g, sha, remotes[k]) == st
  }

  lemma {:induction false} WalkedComplete(g: Graph, git: Git, objects: set<Commit>, sha: Commit, remotes: seq<Remote>,
                                          k: nat)
    requires sha in objects && AllComplete(g, objects, remotes) && k <= |remotes|
    ensures var store := Walked(git, objects, sha, remotes, k); sha in store && AllComplete(g, store, remotes)
  {
    if k > 0 {
      var store := Walked(git, objects, sha, remotes, k - 1);
      WalkedComplete(g, git, objects, sha, remotes, k - 1);
      GrowsByFetch(git, store, sha, remotes[k - 1]);
      assert Complete(g, store, remotes[k - 1]);
      forall i | 0 <= i < |remotes|
        ensures Complete(g, Walked(git, objects, sha, remotes, k), remotes[i])
      {
        StaysComplete(g, store, remotes[k - 1].brings, remotes[i]);
      }
    }
  }

  /** When a remote answers pushed at its turn, over the graph: exactly when a tracking ref reaches the commit, or
      its heads were all there by then or fetched and one of them does. So what `RemotesContainAny` passes over
      before the remote it names are the ones for which this was not so. */
  lemma PushedAtItsTurnExactly(g: Graph, git: Git, objects: set<Commit>, sha: Commit, remotes: seq<Remote>, k: nat)
    requires Honest(g, git) && NeverFails(git, sha) && sha in objects && AllComplete(g, objects, remotes)
    requires k < |remotes|
    ensures var store, r := Walked(git, objects, sha, remotes, k), remotes[k];
            Answer(git, store, sha, r).0 == IsPushed
            <==> r.refs && (TrackingReaches(g, sha, r.tracking)
                            || (r.ls && |r.heads| <= MAX_REMOTE_HEADS && HeadReaches(g, sha, r.heads)
                                && (AllPresent(store, r.heads)
                                    || (r.fetch && AllPresent(store + r.brings, r.heads)))))
  {
    WalkedComplete(g, git, objects, sha, remotes, k);
    AnswerExactly(g, git, Walked(git, objects, sha, remotes, k), sha, remotes[k]);
  }

  lemma SaysRest(g: Graph, git: Git, objects: set<Commit>, sha: Commit, remotes: seq<Remote>, k: nat, st: State)
    requires k + 1 < |remotes|
    ensures var next := Answer(git, objects, sha, remotes[0]).2;
            Says(g, git, objects, sha, remotes, k + 1, st) <==> Says(g, git, next, sha, remotes[1..], k, st)
  {
    WalkedRest(git, objects, sha, remotes, k);
    assert remotes[1..][k] == remotes[k + 1];
  }

  ghost predicate SomeSays(g: Graph, git: Git, objects: set<Commit>, sha: Commit, remotes: seq<Remote>, st: State) {
    exists k: nat :: k < |remotes| && Says(g, git, objects, sha, remotes, k, st)
  }

  ghost predicate AllSay(g: Graph, git: Git, objects: set<Commit>, sha: Commit, remotes: seq<Remote>, st: State) {
    forall k: nat :: k < |remotes| ==> Says(g, git, objects, sha, remotes, k, st)
  }

  lemma SaidBySome(g: Graph, git: Git, objects: set<Commit>, sha: Commit, remotes: seq<Remote>, st: State)
    requires remotes != []
    ensures var next := Answer(git, objects, sha, remotes[0]).2;
            SomeSays(g, git, objects, sha, remotes, st)
            <==> Says(g, git, objects, sha, remotes, 0, st) || SomeSays(g, git, next, sha, remotes[1..], st)
  {
    var next := Answer(git, objects, sha, remotes[0]).2;
    if k: nat :| k < |remotes| && Says(g, git, objects, sha, remotes, k, st) {
      if k > 0 {
        SaysRest(g, git, objects, sha, remotes, k - 1, st);
      }
    }
    if k: nat :| k < |remotes[1..]| && Says(g, git, next, sha, remotes[1..], k, st) {
      SaysRest(g, git, objects, sha, remotes, k, st);
    }
  }

  lemma SaidByAll(g: Graph, git: Git, objects: set<Commit>, sha: Commit, remotes: seq<Remote>, st: State)
    requires remotes != []
    ensures var next := Answer(git, objects, sha, remotes[0]).2;
            AllSay(g, git, objects, sha, remotes, st)
            <==> Says(g, git, objects, sha, remotes, 0, st) && AllSay(g, git, next, sha, remotes[1..], st)
  {
    var next := Answer(git, objects, sha, remotes[0]).2;
    if k: nat :| k < |remotes| && !Says(g, git, objects, sha, remotes, k, st) {
      if k > 0 {
        SaysRest(g, git, objects, sha, remotes, k - 1, st);
      }
    }
    if k: nat :| k < |remotes[1..]| && !Says(g, git, next, sha, remotes[1..], k, st) {
      SaysRest(g, git, objects, sha, remotes, k, st);
    }
  }

  /** The answer over any list of remotes, in the order of the list: pushed exactly when some remote that is
      settled at its turn, or decided by a tracking ref, has the commit; not_pushed exactly when every one is
      and denies it. So two orders differ exactly where these differ. */
  lemma {:induction false} OverAllExactly(g: Graph, git: Git, objects: set<Commit>, sha: Commit, remotes: seq<Remote>)
    requires Honest(g, git) && NeverFails(git, sha) && sha in objects && AllComplete(g, objects, remotes)
    ensures OverAll(git, objects, sha, remotes).0 == IsPushed <==> SomeSays(g, git, objects, sha, remotes, IsPushed)
    ensures OverAll(git, objects, sha, remotes).0 == NotPushed <==> AllSay(g, git, objects, sha, remotes, NotPushed)
    decreases |remotes|
  {
    if remotes != [] {
      AnswerExactly(g, git, objects, sha, remotes[0]);
      GrowsByFetch(git, objects, sha, remotes[0]);
      RestComplete(g, git, objects, sha, remotes);
      OverAllExactly(g, git, Answer(git, objects, sha, remotes[0]).2, sha, remotes[1..]);
      SaidBySome(g, git, objects, sha, remotes, IsPushed);
      SaidByAll(g, git, objects, sha, remotes, NotPushed);
    }
  }

  /** Such a pair: remote `b` cannot fetch its head `tip`, but the fetch for `a` brings it. Asked in this
      order the commit is `not_pushed`; the other way round it is `unverified`. */
  lemma OrderMatters(g: Graph, git: Git, sha: Commit, tip: Commit)
    requires Honest(g, git) && NeverFails(git, sha)
    requires sha != tip && g(sha) == {} && g(tip) == {}
    ensures var a := Remote(true, [], true, [Ref("main", tip)], true, {tip});
            var b := a.(fetch := false);
            && OverAll(git, {sha}, sha, [a, b]).0 == NotPushed
            && OverAll(git, {sha}, sha, [b, a]).0 == Unverified
  {
    var a := Remote(true, [], true, [Ref("main", tip)], true, {tip});
    var b := a.(fetch := false);
    var both := {sha} + {tip};
    if Sees(g, both, tip, sha) {
      var next := FirstStep(g, both, tip, sha);
      assert false;
    }
    assert a.heads[0].tip == tip && tip !in {sha} && tip in both && sha in both;
    assert Scan(git, both, sha, a.heads[1..]).0 == NotPushed;
    assert Answer(git, {sha}, sha, a).0 == NotPushed && Answer(git, {sha}, sha, a).2 == both;
    assert AllPresent(both, b.heads);
    assert Answer(git, both, sha, b).0 == NotPushed;
    assert Answer(git, {sha}, sha, b).0 == Unverified && Answer(git, {sha}, sha, b).2 == {sha};
    assert [a, b][1..] == [b] && [b, a][1..] == [a] && [a][1..] == [] && [b][1..] == [];
    assert OverAll(git, both, sha, [b]).0 == NotPushed;
    assert OverAll(git, {sha}, sha, [a]).0 == NotPushed;
  }
}
