/** Precedence of versions, section 11 of Semantic Versioning 2.0.0: the order the forward-only
    rule of the rules cache compares with. Build metadata has no part in it. */
module SemVer {

  datatype Ident = Num(n: nat) | Alpha(text: string)

  /** An empty `pre` is a release. */
  datatype Version = Version(major: nat, minor: nat, patch: nat, pre: seq<Ident>, build: seq<string>)

  function Sign(a: int, b: int): int {
    if a < b then -1 else if a > b then 1 else 0
  }

  function CompareText(a: string, b: string): int {
    if a == [] || b == [] then Sign(|a|, |b|)
    else if a[0] != b[0] then Sign(a[0] as int, b[0] as int)
    else CompareText(a[1..], b[1..])
  }

  function CompareIdent(a: Ident, b: Ident): int {
    match (a, b)
    case (Num(m), Num(n)) => Sign(m, n)
    case (Num(_), Alpha(_)) => -1
    case (Alpha(_), Num(_)) => 1
    case (Alpha(s), Alpha(t)) => CompareText(s, t)
  }

  function CompareIdents(a: seq<Ident>, b: seq<Ident>): int {
    if a == [] || b == [] then Sign(|a|, |b|)
    else
      var c := CompareIdent(a[0], b[0]);
      if c != 0 then c else CompareIdents(a[1..], b[1..])
  }

  /** A release outranks its pre-releases. */
  function ComparePre(a: seq<Ident>, b: seq<Ident>): int {
    if a == [] && b != [] then 1
    else if a != [] && b == [] then -1
    else CompareIdents(a, b)
  }

  function Compare(a: Version, b: Version): int {
    if a.major != b.major then Sign(a.major, b.major)
    else if a.minor != b.minor then Sign(a.minor, b.minor)
    else if a.patch != b.patch then Sign(a.patch, b.patch)
    else ComparePre(a.pre, b.pre)
  }

  lemma {:induction false} TextOrder(a: string, b: string, c: string)
    ensures CompareText(a, b) == -CompareText(b, a)
    ensures CompareText(a, b) == 0 <==> a == b
    ensures CompareText(a, b) <= 0 && CompareText(b, c) <= 0 ==> CompareText(a, c) <= 0
    decreases |a|
  {
    if a != [] && b != [] {
      TextOrder(a[1..], b[1..], if c == [] then [] else c[1..]);
      assert a == [a[0]] + a[1..] && b == [b[0]] + b[1..];
    }
  }

  lemma IdentOrder(a: Ident, b: Ident, c: Ident)
    ensures CompareIdent(a, b) == -CompareIdent(b, a)
    ensures CompareIdent(a, b) == 0 <==> a == b
    ensures CompareIdent(a, b) <= 0 && CompareIdent(b, c) <= 0 ==> CompareIdent(a, c) <= 0
  {
    if a.Alpha? && b.Alpha? {
      TextOrder(a.text, b.text, if c.Alpha? then c.text else "");
    }
  }

  lemma {:induction false} IdentsOrder(a: seq<Ident>, b: seq<Ident>, c: seq<Ident>)
    ensures CompareIdents(a, b) == -CompareIdents(b, a)
    ensures CompareIdents(a, b) == 0 <==> a == b
    ensures CompareIdents(a, b) <= 0 && CompareIdents(b, c) <= 0 ==> CompareIdents(a, c) <= 0
    decreases |a|
  {
    if a != [] && b != [] {
      IdentOrder(a[0], b[0], if c == [] then a[0] else c[0]);
      if c != [] {
        IdentOrder(b[0], c[0], a[0]);
        IdentOrder(c[0], a[0], b[0]);
      }
      IdentsOrder(a[1..], b[1..], if c == [] then [] else c[1..]);
      assert a == [a[0]] + a[1..] && b == [b[0]] + b[1..];
    }
  }

  /** Precedence is a total order of versions that does not look at their build metadata: two versions are
      equal in it exactly when they differ at most there. */
  lemma PrecedenceOrder(a: Version, b: Version, c: Version)
    ensures Compare(a, b) == -Compare(b, a)
    ensures Compare(a, b) == 0 <==> a == b.(build := a.build)
    ensures Compare(a, b) <= 0 && Compare(b, c) <= 0 ==> Compare(a, c) <= 0
    ensures Compare(a.(build := c.build), b) == Compare(a, b) == Compare(a, b.(build := c.build))
  {
    IdentsOrder(a.pre, b.pre, c.pre);
  }

  function PreRelease(pre: seq<Ident>): Version {
    Version(1, 0, 0, pre, [])
  }

  /** The chain of section 11.4 of Semantic Versioning 2.0.0: 1.0.0-alpha < 1.0.0-alpha.1 < 1.0.0-alpha.beta
      < 1.0.0-beta < 1.0.0-beta.2 < 1.0.0-beta.11 < 1.0.0-rc.1 < 1.0.0. */
  lemma SpecExample(chain: seq<Version>, i: nat)
    requires var alpha, beta, rc := Alpha("alpha"), Alpha("beta"), Alpha("rc");
             chain == [PreRelease([alpha]), PreRelease([alpha, Num(1)]), PreRelease([alpha, beta]), PreRelease([beta]),
                       PreRelease([beta, Num(2)]), PreRelease([beta, Num(11)]), PreRelease([rc, Num(1)]),
                       PreRelease([])]
    requires i < 7
    ensures Compare(chain[i], chain[i + 1]) == -1
  {
    var alpha, beta, rc := Alpha("alpha"), Alpha("beta"), Alpha("rc");
    SameHead(alpha, [], [Num(1)]);
    SameHead(alpha, [Num(1)], [beta]);
    SameHead(beta, [], [Num(2)]);
    SameHead(beta, [Num(2)], [Num(11)]);
    assert CompareText("alpha", "beta") == -1 && CompareText("beta", "rc") == -1;
  }

  lemma SameHead(x: Ident, a: seq<Ident>, b: seq<Ident>)
    ensures CompareIdents([x] + a, [x] + b) == CompareIdents(a, b)
  {
    IdentOrder(x, x, x);
    assert ([x] + a)[1..] == a && ([x] + b)[1..] == b;
  }
}
