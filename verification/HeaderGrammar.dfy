/** The lines the header parser accepts, as a grammar: the parser against a declarative reading. */
module HeaderGrammar {
  import opened Option
  import opened PeerHeader

  /** A field as the parser takes it: a key without blanks, brackets, quotes or `=`, and a value that is quoted, or
      runs up to a blank or a bracket. */
  predicate Loose(f: Field) {
    && f.key != "" && Without({' ', ']', '"', '='}, f.key)
    && (match f
        case Bare(_, val) => Without({' ', ']'}, val) && (val != "" ==> val[0] != '"')
        case Quoted(_, val) => Without({'"'}, val))
  }

  function Blanks(n: nat): string {
    if n == 0 then "" else [' '] + Blanks(n - 1)
  }

  /** Fields with blanks before each, and before the closing bracket; then anything. */
  function Written(fs: seq<Field>, gaps: seq<nat>, tail: string): string
    requires |gaps| == |fs| + 1
    decreases |fs|
  {
    if fs == [] then Blanks(gaps[0]) + ([']'] + tail)
    else Blanks(gaps[0]) + (PrintField(fs[0]) + Written(fs[1..], gaps[1..], tail))
  }

  /** The fields are readable, and one without quotes is kept apart from the next. */
  predicate Spaced(fs: seq<Field>, gaps: seq<nat>)
    requires |gaps| == |fs| + 1
  {
    && (forall i :: 0 <= i < |fs| ==> Loose(fs[i]))
    && forall i :: 0 <= i < |fs| - 1 && fs[i].Bare? ==> gaps[i + 1] > 0
  }

  lemma {:induction false} BlanksDrop(n: nat, s: string)
    requires s == "" || s[0] != ' '
    ensures DropWhile(c => c == ' ', Blanks(n) + s) == s
  {
    if n == 0 {
      assert Blanks(n) + s == s;
    } else {
      BlanksDrop(n - 1, s);
      assert (Blanks(n) + s)[1..] == Blanks(n - 1) + s;
    }
  }

  lemma {:induction false} DropSplits(text: string) returns (n: nat)
    ensures var rest := DropWhile(c => c == ' ', text);
            text == Blanks(n) + rest && (rest == "" || rest[0] != ' ')
  {
    if text != [] && text[0] == ' ' {
      var m := DropSplits(text[1..]);
      n := m + 1;
      assert text == [' '] + text[1..];
      Two([' '], Blanks(m), DropWhile(c => c == ' ', text[1..]));
    } else {
      n := 0;
      assert Blanks(0) + text == text;
    }
  }

  lemma {:induction false} IndexFinds(cs: set<char>, s: string)
    ensures Without(cs, s[..IndexOf(cs, s)])
    ensures IndexOf(cs, s) < |s| ==> s[IndexOf(cs, s)] in cs
  {
    if s != [] && s[0] !in cs {
      IndexFinds(cs, s[1..]);
      var n := IndexOf(cs, s[1..]);
      assert s[..1 + n] == [s[0]] + s[1..][..n];
    }
  }

  lemma PartsOfBare(rest: string, eq: nat, end: nat)
    requires eq < |rest| && rest[eq] == '=' && end <= |rest| - eq - 1
    ensures var after := rest[eq + 1..]; rest == rest[..eq] + ['='] + after[..end] + after[end..]
  {
  }

  lemma PartsOfQuoted(rest: string, eq: nat, end: nat)
    requires eq + 1 < |rest| && rest[eq] == '=' && rest[eq + 1] == '"'
    requires end < |rest| - eq - 2 && rest[eq + 2 + end] == '"'
    ensures var after := rest[eq + 1..];
            rest == rest[..eq] + ['='] + (['"'] + after[1..1 + end] + ['"']) + after[2 + end..]
  {
  }

  lemma QuotedSound(rest: string, eq: nat)
    requires eq == IndexOf({'='}, rest) < |rest| && rest[eq] == '='
    requires Token(rest).Some? && eq + 1 < |rest| && rest[eq + 1] == '"'
    ensures var (key, val, more) := Token(rest).value;
            && key == rest[..eq] && rest == key + ['='] + (['"'] + val + ['"']) + more && Without({'"'}, val)
  {
    var after := rest[eq + 1..];
    var end := IndexOf({'"'}, after[1..]);
    IndexFinds({'"'}, after[1..]);
    assert after[1..1 + end] == after[1..][..end];
    PartsOfQuoted(rest, eq, end);
  }

  lemma TokenIsBare(rest: string, eq: nat)
    requires eq == IndexOf({'='}, rest) < |rest|
    requires Token(rest).Some? && !(eq + 1 < |rest| && rest[eq + 1] == '"')
    ensures var after := rest[eq + 1..];
            var end := IndexOf({' ', ']'}, after);
            end < |after| && Token(rest).value == (rest[..eq], after[..end], after[end..])
  {
    assert rest[eq + 1..] != [] ==> rest[eq + 1..][0] == rest[eq + 1];
  }

  lemma BareSound(rest: string, eq: nat)
    requires eq == IndexOf({'='}, rest) < |rest| && rest[eq] == '='
    requires Token(rest).Some? && !(eq + 1 < |rest| && rest[eq + 1] == '"')
    ensures var (key, val, more) := Token(rest).value;
            && key == rest[..eq] && rest == key + ['='] + val + more && Without({' ', ']'}, val)
            && (val != "" ==> val[0] != '"') && more != "" && more[0] in {' ', ']'}
  {
    TokenIsBare(rest, eq);
    ValueStops(rest[eq + 1..]);
    PartsOfBare(rest, eq, IndexOf({' ', ']'}, rest[eq + 1..]));
    assert rest[eq + 1..] != [] ==> rest[eq + 1..][0] == rest[eq + 1];
  }

  lemma ValueStops(after: string)
    requires IndexOf({' ', ']'}, after) < |after|
    ensures var end := IndexOf({' ', ']'}, after);
            && Without({' ', ']'}, after[..end]) && (end > 0 ==> after[..end][0] == after[0])
            && after[end..] != "" && after[end..][0] in {' ', ']'}
  {
    IndexFinds({' ', ']'}, after);
  }

  /** A token read is a readable field, and what follows one without quotes is a blank or a bracket. */
  lemma TokenSound(rest: string) returns (f: Field)
    requires Token(rest).Some?
    ensures var (key, val, more) := Token(rest).value;
            && Loose(f) && f.key == key && f.val == val && rest == PrintField(f) + more
            && (f.Bare? ==> more != "" && more[0] in {' ', ']'})
  {
    var (key, val, more) := Token(rest).value;
    var eq := IndexOf({'='}, rest);
    IndexFinds({'='}, rest);
    KeyIsApart(rest, eq);
    if eq + 1 < |rest| && rest[eq + 1] == '"' {
      QuotedSound(rest, eq);
      f := Quoted(key, val);
      Three(key, ['"'] + val + ['"'], more);
    } else {
      BareSound(rest, eq);
      f := Bare(key, val);
      Three(key, val, more);
    }
  }

  lemma KeyIsApart(rest: string, eq: nat)
    requires eq <= |rest| && Without({'='}, rest[..eq]) && !ContainsAny({' ', ']', '"'}, rest[..eq])
    ensures Without({' ', ']', '"', '='}, rest[..eq])
  {
  }

  lemma {:induction false} Unread(text: string, m: map<string, string>)
    returns (fs: seq<Field>, gaps: seq<nat>, tail: string)
    requires Fields(text, m).Some?
    ensures |gaps| == |fs| + 1 && text == Written(fs, gaps, tail) && Spaced(fs, gaps) && NewKeys(m, fs)
    ensures Fields(text, m) == Some(AsMap(m, fs))
    decreases |text|
  {
    var n := DropSplits(text);
    var rest := DropWhile(c => c == ' ', text);
    if rest != [] && rest[0] == ']' {
      fs, gaps, tail := [], [n], rest[1..];
      assert rest == [']'] + tail;
    } else {
      TokenShrinks(rest);
      var f := TokenSound(rest);
      var (key, val, more) := Token(rest).value;
      var fs', gaps', tail' := Unread(more, m[key := val]);
      fs, gaps, tail := [f] + fs', [n] + gaps', tail';
      assert fs[1..] == fs' && gaps[1..] == gaps';
      if f.Bare? && fs' != [] && gaps'[0] == 0 {
        GapShows(fs', gaps', tail');
        assert false;
      }
      SpacedPrepend(f, n, fs', gaps');
      NewKeysPrepend(m, f, fs');
    }
  }

  /** Without blanks before it a field starts with its key. */
  lemma GapShows(fs: seq<Field>, gaps: seq<nat>, tail: string)
    requires |gaps| == |fs| + 1 && fs != [] && gaps[0] == 0 && Loose(fs[0])
    ensures Written(fs, gaps, tail) != "" && Written(fs, gaps, tail)[0] == fs[0].key[0]
    ensures Written(fs, gaps, tail)[0] !in {' ', ']'}
  {
    var rest := PrintField(fs[0]) + Written(fs[1..], gaps[1..], tail);
    assert Blanks(0) + rest == rest;
    assert rest[0] == PrintField(fs[0])[0] == fs[0].key[0];
  }

  lemma SpacedPrepend(f: Field, n: nat, fs: seq<Field>, gaps: seq<nat>)
    requires |gaps| == |fs| + 1 && Spaced(fs, gaps) && Loose(f) && (f.Bare? && fs != [] ==> gaps[0] > 0)
    ensures Spaced([f] + fs, [n] + gaps)
  {
    var all, spaces := [f] + fs, [n] + gaps;
    forall i | 0 <= i < |all|
      ensures Loose(all[i]) && (i < |all| - 1 && all[i].Bare? ==> spaces[i + 1] > 0)
    {
      if i > 0 {
        assert all[i] == fs[i - 1] && spaces[i + 1] == gaps[i];
      }
    }
  }

  lemma NewKeysPrepend(m: map<string, string>, f: Field, fs: seq<Field>)
    requires f.key !in m && NewKeys(m[f.key := f.val], fs)
    ensures NewKeys(m, [f] + fs)
  {
    var all := [f] + fs;
    forall i | 0 <= i < |all|
      ensures all[i].key !in m
    {
      if i > 0 {
        assert all[i] == fs[i - 1] && fs[i - 1].key !in m[f.key := f.val];
      }
    }
    forall i, j | 0 <= i < j < |all|
      ensures all[i].key != all[j].key
    {
      assert all[j] == fs[j - 1] && fs[j - 1].key !in m[f.key := f.val];
      assert i > 0 ==> all[i] == fs[i - 1];
    }
  }

  lemma TokenComplete(f: Field, more: string)
    requires Loose(f) && (f.Bare? ==> more != "" && more[0] in {' ', ']'})
    ensures Token(PrintField(f) + more) == Some((f.key, f.val, more))
  {
    if f.Bare? {
      BareComplete(f.key, f.val, more);
      Three(f.key, f.val, more);
    } else {
      QuotedComplete(f.key, f.val, more);
      Three(f.key, ['"'] + f.val + ['"'], more);
    }
  }

  lemma Three(key: string, shown: string, more: string)
    ensures key + ['='] + shown + more == key + ['='] + (shown + more)
    ensures key + (['='] + shown) == key + ['='] + shown
  {
  }

  lemma BareComplete(key: string, val: string, more: string)
    requires Loose(Bare(key, val)) && more != "" && more[0] in {' ', ']'}
    ensures Token(key + ['='] + (val + more)) == Some((key, val, more))
  {
    var after := val + more;
    KeyOfToken(key, after);
    StartsWith(val, more);
    ValueEnds(val, more);
  }

  lemma ValueEnds(val: string, more: string)
    requires Without({' ', ']'}, val) && (val != "" ==> val[0] != '"') && more != "" && more[0] in {' ', ']'}
    ensures IndexOf({' ', ']'}, val + more) == |val| && (val + more)[0] != '"'
  {
    assert val + more == val + [more[0]] + more[1..];
    IndexAt({' ', ']'}, val, more[0], more[1..]);
    assert (val + more)[0] == if val != "" then val[0] else more[0];
  }

  lemma QuotedComplete(key: string, val: string, more: string)
    requires Loose(Quoted(key, val))
    ensures Token(key + ['='] + (['"'] + val + ['"'] + more)) == Some((key, val, more))
  {
    var after := ['"'] + val + ['"'] + more;
    KeyOfToken(key, after);
    assert after[1..] == val + ['"'] + more;
    IndexAt({'"'}, val, '"', more);
    assert after[1..1 + |val|] == val && after[2 + |val|..] == more;
  }

  lemma {:induction false} Read(fs: seq<Field>, gaps: seq<nat>, tail: string, m: map<string, string>)
    requires |gaps| == |fs| + 1 && Spaced(fs, gaps) && NewKeys(m, fs)
    ensures Fields(Written(fs, gaps, tail), m) == Some(AsMap(m, fs))
    decreases |fs|
  {
    if fs == [] {
      BlanksDrop(gaps[0], [']'] + tail);
    } else {
      var f, more := fs[0], Written(fs[1..], gaps[1..], tail);
      var rest := PrintField(f) + more;
      assert rest[0] == f.key[0];
      BlanksDrop(gaps[0], rest);
      if f.Bare? {
        RestIsApart(fs, gaps, tail);
      }
      TokenComplete(f, more);
      assert forall i :: 0 <= i < |fs[1..]| ==> fs[1..][i] == fs[i + 1] && gaps[1..][i + 1] == gaps[i + 2];
      Read(fs[1..], gaps[1..], tail, m[f.key := f.val]);
    }
  }

  lemma RestIsApart(fs: seq<Field>, gaps: seq<nat>, tail: string)
    requires |gaps| == |fs| + 1 && fs != [] && Spaced(fs, gaps) && fs[0].Bare?
    ensures var more := Written(fs[1..], gaps[1..], tail); more != "" && more[0] in {' ', ']'}
  {
    if |fs| > 1 {
      assert gaps[1..][0] == gaps[0 + 1] > 0;
    }
    if gaps[1..][0] > 0 {
      assert Blanks(gaps[1..][0])[0] == ' ';
    }
  }

  lemma {:induction false} MapOf(m: map<string, string>, fs: seq<Field>, key: string)
    requires NewKeys(m, fs)
    ensures key in AsMap(m, fs) <==> key in m || exists i :: 0 <= i < |fs| && fs[i].key == key
    ensures key in m ==> AsMap(m, fs)[key] == m[key]
    ensures forall i :: 0 <= i < |fs| && fs[i].key == key ==> key in AsMap(m, fs) && AsMap(m, fs)[key] == fs[i].val
    decreases |fs|
  {
    if fs != [] {
      var next := m[fs[0].key := fs[0].val];
      assert forall i :: 0 <= i < |fs[1..]| ==> fs[1..][i] == fs[i + 1];
      MapOf(next, fs[1..], key);
      assert forall i :: 0 < i < |fs| ==> fs[1..][i - 1] == fs[i];
    }
  }

  /** `val` is what the fields say of a key; a key they do not hold is empty. */
  predicate Says(fs: seq<Field>, key: string, val: string) {
    && (forall i :: 0 <= i < |fs| && fs[i].key == key ==> fs[i].val == val)
    && ((forall i :: 0 <= i < |fs| ==> fs[i].key != key) ==> val == "")
  }

  lemma SaysExactly(fs: seq<Field>, key: string, val: string)
    requires NewKeys(map[], fs)
    ensures Says(fs, key, val) <==> Get(AsMap(map[], fs), key) == val
  {
    MapOf(map[], fs, key);
  }

  ghost predicate Accepts(line: string, fs: seq<Field>, gaps: seq<nat>, tail: string) {
    && |gaps| == |fs| + 1 && line == OPENING + Written(fs, gaps, tail) && Spaced(fs, gaps)
    && forall i, j :: 0 <= i < j < |fs| ==> fs[i].key != fs[j].key
  }

  /** The header a list of fields carries: its parts, each valid; names are not looked at. */
  ghost predicate Carries(fs: seq<Field>, h: Header) {
    && Says(fs, "id", h.id) && Says(fs, "kind", h.kind) && Says(fs, "from_sid", h.fromSid)
    && Says(fs, "to_sid", h.toSid) && Says(fs, "from", h.from) && Says(fs, "to", h.to)
    && ValidMsgId(h.id) && h.kind in {"ask", "ping", "tell", "ask-ro"}
    && ValidSession(h.fromSid) && ValidSession(h.toSid)
  }

  lemma CarriesExactly(fs: seq<Field>, h: Header)
    requires NewKeys(map[], fs)
    ensures Carries(fs, h) <==> Checked(AsMap(map[], fs)) == Some(h)
  {
    SaysExactly(fs, "id", h.id);
    SaysExactly(fs, "kind", h.kind);
    SaysExactly(fs, "from_sid", h.fromSid);
    SaysExactly(fs, "to_sid", h.toSid);
    SaysExactly(fs, "from", h.from);
    SaysExactly(fs, "to", h.to);
  }

  /** The parser accepts exactly the lines that open with the mark and hold readable fields, no key twice, up to a
      closing bracket, such that id, kind and both sessions are valid; and it gives back what those fields say. */
  lemma AcceptsExactly(line: string, h: Header)
    ensures Parsed(line) == Some(h) <==> exists fs, gaps, tail :: Accepts(line, fs, gaps, tail) && Carries(fs, h)
  {
    if Parsed(line) == Some(h) {
      var fs, gaps, tail := Unread(line[|OPENING|..], map[]);
      CarriesExactly(fs, h);
      assert Accepts(line, fs, gaps, tail);
    }
    if fs, gaps, tail :| Accepts(line, fs, gaps, tail) && Carries(fs, h) {
      assert line[|OPENING|..] == Written(fs, gaps, tail);
      Read(fs, gaps, tail, map[]);
      CarriesExactly(fs, h);
    }
  }

  // ---------------------------------------------------------------------------------------
  // What may stand before a header
  // ---------------------------------------------------------------------------------------

  predicate AllSpace(s: string) {
    forall i :: 0 <= i < |s| ==> WhiteSpace(s[i])
  }

  lemma {:induction false} SpaceSplits(text: string) returns (ws: string)
    ensures AllSpace(ws) && text == ws + DropWhile(WhiteSpace, text)
  {
    if text != [] && WhiteSpace(text[0]) {
      var rest := SpaceSplits(text[1..]);
      ws := [text[0]] + rest;
      assert text == [text[0]] + text[1..];
      Two([text[0]], rest, DropWhile(WhiteSpace, text[1..]));
    } else {
      ws := "";
      assert "" + text == text;
    }
  }

  lemma Two(a: string, b: string, c: string)
    ensures a + (b + c) == a + b + c
  {
  }

  /** The opening tag of a wrapper, and what it gives way to. */
  ghost predicate Wraps(tag: string, attributes: string, ws: string, message: string) {
    && tag == WRAPPER + attributes + ['>'] + (ws + message)
    && Without({'>'}, attributes) && AllSpace(ws)
  }

  lemma TagSplits(u: string) returns (attributes: string, ws: string)
    requires WRAPPER <= u && IndexOf({'>'}, u) < |u|
    ensures Wraps(u, attributes, ws, DropWhile(WhiteSpace, u[IndexOf({'>'}, u) + 1..]))
  {
    var end := IndexOf({'>'}, u);
    TagEndsLate(u);
    attributes := u[|WRAPPER|..end];
    ws := SpaceSplits(u[end + 1..]);
    TagParts(u, end);
  }

  lemma TagParts(u: string, end: nat)
    requires WRAPPER <= u && |WRAPPER| <= end < |u| && u[end] == '>' && Without({'>'}, u[..end])
    ensures u == WRAPPER + u[|WRAPPER|..end] + ['>'] + u[end + 1..] && Without({'>'}, u[|WRAPPER|..end])
  {
    assert u == u[..|WRAPPER|] + u[|WRAPPER|..end] + [u[end]] + u[end + 1..];
    assert forall i :: 0 <= i < end - |WRAPPER| ==> u[|WRAPPER|..end][i] == u[..end][|WRAPPER| + i];
  }

  lemma TagEndsLate(u: string)
    requires WRAPPER <= u && IndexOf({'>'}, u) < |u|
    ensures var end := IndexOf({'>'}, u); end >= |WRAPPER| && u[end] == '>' && Without({'>'}, u[..end])
  {
    var end := IndexOf({'>'}, u);
    IndexFinds({'>'}, u);
    if end < |WRAPPER| {
      assert u[end] == WRAPPER[end];
      NoBracketInTag(end);
      assert false;
    }
  }

  lemma NoBracketInTag(i: nat)
    requires i < |WRAPPER|
    ensures WRAPPER[i] != '>'
  {
    assert Without({'>'}, WRAPPER);
  }

  /** The tag stands in front, after white space, or after the delivery line and white space around it. */
  ghost predicate Fronts(text: string, before: string, between: string, tag: string) {
    && AllSpace(before) && AllSpace(between)
    && (text == before + tag || text == before + (DELIVERY + (between + tag)))
  }

  /** What the unwrapping looks at: the text behind white space, and behind the delivery line if it is there. */
  function Inner(text: string): string {
    var t := DropWhile(WhiteSpace, text);
    if DELIVERY <= t then DropWhile(WhiteSpace, t[|DELIVERY|..]) else t
  }

  lemma InnerIsFronted(text: string) returns (before: string, between: string)
    ensures Fronts(text, before, between, Inner(text))
  {
    before := SpaceSplits(text);
    var t := DropWhile(WhiteSpace, text);
    if DELIVERY <= t {
      var rest := t[|DELIVERY|..];
      between := SpaceSplits(rest);
      assert t == DELIVERY + rest;
    } else {
      between := "";
    }
  }

  lemma UnwrappedIs(text: string)
    ensures var u := Inner(text);
            Unwrapped(text) == if WRAPPER <= u && IndexOf({'>'}, u) < |u|
                               then DropWhile(WhiteSpace, u[IndexOf({'>'}, u) + 1..]) else text
  {
  }

  /** Only a wrapper is taken off the front of a message, with the white space around it, and with the delivery line
      if it stands before it; the line alone, like any other text, stays. */
  lemma UnwrapsOnlyAWrapper(text: string)
    returns (before: string, between: string, tag: string, attributes: string, ws: string)
    ensures Unwrapped(text) == text
            || (Fronts(text, before, between, tag) && Wraps(tag, attributes, ws, Unwrapped(text)))
  {
    attributes, ws := "", "";
    UnwrappedIs(text);
    before, between := InnerIsFronted(text);
    tag := Inner(text);
    if WRAPPER <= tag && IndexOf({'>'}, tag) < |tag| {
      attributes, ws := TagSplits(tag);
    }
  }

  /** The delivery line without a wrapper behind it is no way to open a message with a header. */
  lemma DeliveryLineAloneIsNone(before: string, rest: string)
    requires (forall i :: 0 <= i < |before| ==> Blank(before[i])) && !(WRAPPER <= DropWhile(WhiteSpace, rest))
    ensures Leading(before + (DELIVERY + rest)) == None
  {
    var t := DELIVERY + rest;
    assert DELIVERY[0] == 'A' && OPENING[0] == '[' && t[0] == 'A';
    Dropped(WhiteSpace, before, t);
    Dropped(Blank, before, t);
    assert t[|DELIVERY|..] == rest;
    assert FirstLine(t) != "" ==> FirstLine(t)[0] == 'A';
  }
}
