/** Removing a team worktree through Orca: LETS's own nets first, one `orca worktree rm`, then a
    classification from both sides. The external programs answer as they like. */
module TeamRemove {
  import opened CommitGraph
  import opened Option
  import opened Pushed

  /** A row of `orca worktree ps`; `branch` without `refs/heads/`. */
  datatype Row = Row(name: string, branch: string, path: string)

  datatype Rm = Clean | ArchiveHookFailed | OtherFailure

  /** What Orca answers: whether it can be used at all, its list before, the `rm`, its list after. */
  datatype Orca = Orca(client: bool, status: bool, before: Option<seq<Row>>, rm: Rm, after: Option<seq<Row>>)

  /** What git answers: the status of the worktree (`None`: unreadable), its HEAD, the remotes, and the
      worktree list after the `rm` (`None`: the command failed). */
  datatype Worktree = Worktree(status: Option<string>, head: Option<Commit>, remotes: Option<seq<Remote>>,
                               listed: Option<seq<string>>)

  /** What of Orca could not be used. */
  datatype NoAttempt = NoClient | NoStatus | NoList

  datatype Outcome =
    | NameInvalid | NoCheckout
    | NotAttempted(why: NoAttempt)
    | NotListed
    | Dirty | Unpushed
    | HookFailed
    | Removed
    | Ambiguous

  /** `psRow`: the first row with the name, or on the branch of that name. */
  function Find(rows: seq<Row>, name: string): Option<Row> {
    if rows == [] then None
    else if rows[0].name == name || rows[0].branch == name then Some(rows[0])
    else Find(rows[1..], name)
  }

  ghost predicate Lists(rows: seq<Row>, name: string) {
    exists i :: 0 <= i < |rows| && (rows[i].name == name || rows[i].branch == name)
  }

  predicate Matches(row: Row, name: string) {
    row.name == name || row.branch == name
  }

  /** The first row with the name or on the branch of that name is at `i`. */
  predicate MatchesFirst(rows: seq<Row>, name: string, i: nat) {
    i < |rows| && Matches(rows[i], name) && forall j :: 0 <= j < i ==> !Matches(rows[j], name)
  }

  lemma {:induction false} FindExactly(rows: seq<Row>, name: string, k: nat)
    requires k <= |rows| && forall j :: 0 <= j < k ==> !Matches(rows[j], name)
    ensures match Find(rows[k..], name)
            case None => forall j :: 0 <= j < |rows| ==> !Matches(rows[j], name)
            case Some(row) => exists i: nat :: MatchesFirst(rows, name, i) && row == rows[i]
    decreases |rows| - k
  {
    if k < |rows| {
      if Matches(rows[k], name) {
        assert MatchesFirst(rows, name, k);
      } else {
        FindExactly(rows, name, k + 1);
        assert rows[k..][1..] == rows[k + 1..];
      }
    }
  }

  lemma {:induction false} FindIsFirst(rows: seq<Row>, name: string)
    ensures Find(rows, name).Some? <==> Lists(rows, name)
    ensures Find(rows, name).Some? ==> Find(rows, name).value in rows
  {
    if rows != [] {
      FindIsFirst(rows[1..], name);
      if Lists(rows[1..], name) {
        var i :| 0 <= i < |rows[1..]| && (rows[1..][i].name == name || rows[1..][i].branch == name);
        assert rows[i + 1] == rows[1..][i];
      }
      if Lists(rows, name) {
        var i :| 0 <= i < |rows| && (rows[i].name == name || rows[i].branch == name);
        assert i > 0 ==> rows[1..][i - 1] == rows[i];
      }
    }
  }

  /** Whether git's list after the `rm` shows the path; a list that cannot be read shows nothing. */
  predicate GitHas(listed: Option<seq<string>>, path: string) {
    listed.Some? && path in listed.value
  }

  /** Whether Orca's list shows the worktree; a list that cannot be read counts as showing it. */
  ghost predicate OrcaHas(after: Option<seq<Row>>, name: string) {
    after.None? || Lists(after.value, name)
  }

  /** What lets the `rm` be issued. */
  ghost predicate NetsPass(o: Orca, name: string, w: Worktree, g: Graph) {
    && o.client && o.status && o.before.Some? && Lists(o.before.value, name)
    && w.status == Some("")
    && w.head.Some? && w.remotes.Some? && OnSome(g, w.head.value, w.remotes.value)
  }

  class Remover {
    const repo: Repository
    /** The paths handed to `orca worktree rm`, in order. */
    var removals: seq<string>

    constructor (repo: Repository)
      ensures this.repo == repo && removals == []
    {
      this.repo := repo;
      removals := [];
    }

    /** The loop of `psRow`. */
    static method PsRow(rows: seq<Row>, name: string) returns (row: Option<Row>)
      ensures row == Find(rows, name)
      ensures row == None <==> forall i :: 0 <= i < |rows| ==> !Matches(rows[i], name)
      ensures row.Some? ==> exists i: nat :: MatchesFirst(rows, name, i) && row.value == rows[i]
    {
      FindExactly(rows, name, 0);
      var i := 0;
      assert rows[0..] == rows;
      while i < |rows|
        invariant 0 <= i <= |rows| && Find(rows, name) == Find(rows[i..], name)
      {
        if rows[i].name == name || rows[i].branch == name { return Some(rows[i]); }
        i := i + 1;
      }
      return None;
    }

    /** The unpushed net. */
    method HeadPushed(g: Graph, git: Git, w: Worktree) returns (ok: bool)
      requires Honest(g, git)
      modifies repo
      ensures ok ==> w.head.Some? && w.remotes.Some? && OnSome(g, w.head.value, w.remotes.value)
      ensures w.head.Some? && w.remotes.Some?
              ==> (ok <==> OverAll(git, old(repo.objects), w.head.value, w.remotes.value).0 == IsPushed)
    {
      if w.head.None? { return false; }
      var state, _, _ := repo.RemotesContainAny(git, w.head.value, w.remotes);
      if w.remotes.Some? {
        OverAllSound(g, git, old(repo.objects), w.head.value, w.remotes.value);
      }
      return state == IsPushed;
    }

    /** `TeamRemove`: at most one `rm`, and only for a clean worktree whose HEAD a remote reaches. */
    method Remove(validName: bool, checkout: bool, name: string, o: Orca, w: Worktree, g: Graph, git: Git)
      returns (outcome: Outcome, attempted: bool, path: string)
      requires Honest(g, git)
      modifies this, repo
      ensures removals == old(removals) + (if attempted then [path] else [])
      ensures attempted ==> validName && checkout && NetsPass(o, name, w, g)
      ensures validName && checkout && o.client && o.status && o.before.Some? && Lists(o.before.value, name)
              && w.status == Some("") && w.head.Some? && w.remotes.Some?
              ==> (attempted <==> OverAll(git, old(repo.objects), w.head.value, w.remotes.value).0 == IsPushed)
      ensures attempted ==>
                exists i: nat :: MatchesFirst(o.before.value, name, i) && o.before.value[i].path == path
      ensures attempted <==> outcome in {HookFailed, Removed, Ambiguous}
      ensures outcome == Removed
              <==> attempted && o.rm != ArchiveHookFailed && !GitHas(w.listed, path) && !OrcaHas(o.after, name)
      ensures outcome == Removed
              <==> && attempted && o.rm != ArchiveHookFailed && !(w.listed.Some? && path in w.listed.value)
                   && o.after.Some? && forall i :: 0 <= i < |o.after.value| ==> !Matches(o.after.value[i], name)
      ensures outcome == HookFailed <==> attempted && o.rm == ArchiveHookFailed
      ensures outcome.NotAttempted? <==> validName && checkout && !(o.client && o.status && o.before.Some?)
      ensures outcome == NotAttempted(NoClient) <==> validName && checkout && !o.client
      ensures outcome == NotAttempted(NoStatus) <==> validName && checkout && o.client && !o.status
      ensures outcome == NameInvalid <==> !validName
      ensures outcome == NoCheckout <==> validName && !checkout
      ensures outcome == Dirty
              <==> validName && checkout && o.client && o.status && o.before.Some?
                    && Lists(o.before.value, name) && w.status != Some("")
      ensures outcome == NotListed
              <==> validName && checkout && o.client && o.status && o.before.Some? && !Lists(o.before.value, name)
    {
      attempted, path := false, "";
      if !validName { return NameInvalid, false, ""; }
      if !checkout { return NoCheckout, false, ""; }
      if !o.client { return NotAttempted(NoClient), false, ""; }
      if !o.status { return NotAttempted(NoStatus), false, ""; }
      if o.before.None? { return NotAttempted(NoList), false, ""; }
      var row := PsRow(o.before.value, name);
      FindIsFirst(o.before.value, name);
      if row.None? { return NotListed, false, ""; }
      path := row.value.path;
      if w.status != Some("") { return Dirty, false, path; }
      var pushed := HeadPushed(g, git, w);
      if !pushed { return Unpushed, false, path; }
      attempted := true;
      removals := removals + [path];
      if o.rm == ArchiveHookFailed { return HookFailed, true, path; }
      var gitHas := GitHas(w.listed, path);
      var orcaHas := o.after.None?;
      if o.after.Some? {
        var left := PsRow(o.after.value, name);
        FindIsFirst(o.after.value, name);
        orcaHas := left.Some?;
      }
      if !gitHas && !orcaHas { return Removed, true, path; }
      return Ambiguous, true, path;
    }
  }

  /** `removed` means gone from both sides whatever git's registrations really are, exactly when git's
      list could be read or Orca already keeps the answer open: a failed `git worktree list` counts as
      "git does not have it", unlike a failed `orca worktree ps`. */
  lemma RemovedIsSoundExactly(listed: Option<seq<string>>, after: Option<seq<Row>>, name: string, path: string)
    ensures (forall registered :: Tells(listed, path, registered)
              ==> (!GitHas(listed, path) && !OrcaHas(after, name) ==> !registered))
            <==> listed.Some? || OrcaHas(after, name)
  {
    assert listed.None? ==> Tells(listed, path, true);
  }

  /** What git's list says about the real registration of the path: everything, or nothing when unread. */
  predicate Tells(listed: Option<seq<string>>, path: string, registered: bool) {
    listed.Some? ==> (registered <==> path in listed.value)
  }
}
