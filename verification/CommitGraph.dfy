/** Reachability over a commit graph, and over the part of it a repository has. */
module CommitGraph {

  type Commit = nat

  /** The parents of every commit that exists anywhere. */
  type Graph = Commit -> set<Commit>

  /** A walk from a commit to one of its ancestors, all inside `within`. */
  ghost predicate Walk(g: Graph, within: set<Commit>, path: seq<Commit>, from: Commit, to: Commit) {
    && |path| >= 1 && path[0] == from && path[|path| - 1] == to
    && (forall i :: 0 <= i < |path| ==> path[i] in within)
    && forall i :: 0 <= i < |path| - 1 ==> path[i + 1] in g(path[i])
  }

  ghost predicate PathTo(g: Graph, path: seq<Commit>, from: Commit, to: Commit) {
    && |path| >= 1 && path[0] == from && path[|path| - 1] == to
    && forall i :: 0 <= i < |path| - 1 ==> path[i + 1] in g(path[i])
  }

  /** `to` is `from` or one of its ancestors. */
  ghost predicate Reaches(g: Graph, from: Commit, to: Commit) {
    exists path :: PathTo(g, path, from, to)
  }

  /** What git can see of it with the objects it has. */
  ghost predicate Sees(g: Graph, objects: set<Commit>, from: Commit, to: Commit) {
    exists path :: Walk(g, objects, path, from, to)
  }

  /** A repository that is not shallow: with a commit it has its parents. */
  ghost predicate Closed(g: Graph, objects: set<Commit>) {
    forall c :: c in objects ==> g(c) <= objects
  }

  lemma SeenIsReached(g: Graph, objects: set<Commit>, from: Commit, to: Commit)
    requires Sees(g, objects, from, to)
    ensures Reaches(g, from, to)
  {
    var path :| Walk(g, objects, path, from, to);
    assert PathTo(g, path, from, to);
  }

  lemma FirstStep(g: Graph, objects: set<Commit>, from: Commit, to: Commit) returns (next: Commit)
    requires Sees(g, objects, from, to) && from != to
    ensures next in g(from) && next in objects
  {
    var path :| Walk(g, objects, path, from, to);
    next := path[1];
    assert path[0 + 1] in g(path[0]);
  }

  lemma {:induction false} PathStays(g: Graph, objects: set<Commit>, path: seq<Commit>, from: Commit, to: Commit,
                                     i: nat)
    requires Closed(g, objects) && PathTo(g, path, from, to) && from in objects && i < |path|
    ensures path[i] in objects
  {
    if i > 0 {
      PathStays(g, objects, path, from, to, i - 1);
      assert path[i - 1 + 1] in g(path[i - 1]);
    }
  }

  /** With every parent present, git sees exactly what is reachable. */
  lemma ClosedSeesAll(g: Graph, objects: set<Commit>, from: Commit, to: Commit)
    requires Closed(g, objects) && from in objects
    ensures Sees(g, objects, from, to) <==> Reaches(g, from, to)
  {
    if Sees(g, objects, from, to) {
      SeenIsReached(g, objects, from, to);
    }
    if Reaches(g, from, to) {
      var path :| PathTo(g, path, from, to);
      forall i | 0 <= i < |path|
        ensures path[i] in objects
      {
        PathStays(g, objects, path, from, to, i);
      }
      assert Walk(g, objects, path, from, to);
    }
  }
}
