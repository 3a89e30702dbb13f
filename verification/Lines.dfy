/** Cutting a byte or character sequence at a separator, and putting it back together.
    `Split` has the meaning of Go's `bytes.Split` and `strings.Split`: n separators give
    n + 1 pieces, and the empty input is one empty piece. */
module Lines {

  function Split<T(==)>(s: seq<T>, sep: T): (r: seq<seq<T>>)
    ensures |r| >= 1
  {
    if s == [] then [[]]
    else
      var rest := Split(s[1..], sep);
      if s[0] == sep then [[]] + rest else [[s[0]] + rest[0]] + rest[1..]
  }

  function Join<T>(parts: seq<seq<T>>, sep: T): seq<T>
    requires |parts| >= 1
  {
    if |parts| == 1 then parts[0] else parts[0] + [sep] + Join(parts[1..], sep)
  }

  /** Two split texts put end to end: the last piece of one and the first of the other meet. */
  function Meet<T>(sa: seq<seq<T>>, sb: seq<seq<T>>): seq<seq<T>>
    requires |sa| >= 1 && |sb| >= 1
  {
    sa[..|sa| - 1] + [sa[|sa| - 1] + sb[0]] + sb[1..]
  }

  lemma MeetFront<T>(p: seq<seq<T>>, rest: seq<seq<T>>, sb: seq<seq<T>>)
    requires |rest| >= 1 && |sb| >= 1
    ensures Meet(p + rest, sb) == p + Meet(rest, sb)
  {
    assert (p + rest)[..|p + rest| - 1] == p + rest[..|rest| - 1];
  }

  lemma MeetHead<T>(c: T, rest: seq<seq<T>>, sb: seq<seq<T>>)
    requires |rest| >= 1 && |sb| >= 1
    ensures var m := Meet(rest, sb);
            Meet([[c] + rest[0]] + rest[1..], sb) == [[c] + m[0]] + m[1..]
  {
    var m := Meet(rest, sb);
    if |rest| == 1 {
      assert [c] + rest[0] + sb[0] == [c] + (rest[0] + sb[0]);
    } else {
      MeetFront([rest[0]], rest[1..], sb);
      MeetFront([[c] + rest[0]], rest[1..], sb);
      assert [rest[0]] + rest[1..] == rest;
    }
  }

  lemma MeetTail<T>(sa: seq<seq<T>>, sb: seq<seq<T>>)
    requires |sa| >= 1 && |sb| >= 1
    ensures Meet(sa, sb) == Meet(sa, [sb[0]]) + sb[1..]
  {
  }

  lemma {:induction false} SplitConcat<T>(a: seq<T>, b: seq<T>, sep: T)
    ensures Split(a + b, sep) == Meet(Split(a, sep), Split(b, sep))
  {
    if a == [] {
      assert a + b == b;
      assert [] + Split(b, sep)[0] == Split(b, sep)[0];
    } else {
      SplitConcat(a[1..], b, sep);
      assert (a + b)[1..] == a[1..] + b;
      if a[0] == sep {
        MeetFront([[]], Split(a[1..], sep), Split(b, sep));
      } else {
        MeetHead(a[0], Split(a[1..], sep), Split(b, sep));
      }
    }
  }

  /** `Split(a + b)` when `b` is already split: only its first piece has to be joined to `a`. */
  lemma SplitPrepend<T>(a: seq<T>, b: seq<T>, sep: T)
    ensures Split(a + b, sep) == Split(a + Split(b, sep)[0], sep) + Split(b, sep)[1..]
  {
    var sa, sb := Split(a, sep), Split(b, sep);
    assert sb[0] in sb;
    SplitPieces(b, sep);
    SplitNoSep(sb[0], sep);
    SplitConcat(a, b, sep);
    SplitConcat(a, sb[0], sep);
    MeetTail(sa, sb);
  }

  lemma {:induction false} SplitNoSep<T>(s: seq<T>, sep: T)
    requires sep !in s
    ensures Split(s, sep) == [s]
  {
    if s != [] {
      assert sep !in s[1..];
      SplitNoSep(s[1..], sep);
      assert [s[0]] + s[1..] == s;
    }
  }

  lemma {:induction false} SplitPieces<T>(s: seq<T>, sep: T)
    ensures forall p :: p in Split(s, sep) ==> sep !in p
  {
    if s != [] {
      SplitPieces(s[1..], sep);
      var rest := Split(s[1..], sep);
      assert sep !in rest[0];
    }
  }

  lemma {:induction false} JoinSplit<T>(s: seq<T>, sep: T)
    ensures Join(Split(s, sep), sep) == s
  {
    if s != [] {
      JoinSplit(s[1..], sep);
      var rest := Split(s[1..], sep);
      if s[0] == sep {
        assert ([[]] + rest)[1..] == rest;
      } else if |rest| > 1 {
        assert ([[s[0]] + rest[0]] + rest[1..])[1..] == rest[1..];
      }
    }
  }

  lemma MeetEmpty<T>(sa: seq<seq<T>>, rest: seq<seq<T>>)
    requires |sa| >= 1
    ensures Meet(sa, [[]] + rest) == sa + rest
  {
    var last := sa[|sa| - 1];
    assert last + [] == last;
    assert sa[..|sa| - 1] + [last] == sa;
  }

  /** A line ended by the separator is one piece of its own. */
  lemma SplitLine<T>(line: seq<T>, rest: seq<T>, sep: T)
    requires sep !in line
    ensures Split(line + [sep] + rest, sep) == [line] + Split(rest, sep)
  {
    SplitNoSep(line, sep);
    assert line + [sep] + rest == line + ([sep] + rest);
    SplitConcat(line, [sep] + rest, sep);
    assert ([sep] + rest)[1..] == rest;
    assert Meet([line], [[]] + Split(rest, sep)) == [line + []] + Split(rest, sep);
    assert line + [] == line;
  }
}
