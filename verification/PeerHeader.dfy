/** The `[lets-peer ...]` line that opens a peer message: its printer, and the one parser. */
module PeerHeader {
  import opened Option

  datatype Header = Header(id: string, kind: string, fromSid: string, toSid: string, from: string, to: string)

  const OPENING := "[lets-peer "
  const DELIVERY := "Another Claude session sent a message:"
  const WRAPPER := "<cross-session-message"

  predicate Hex(c: char) {
    '0' <= c <= '9' || 'a' <= c <= 'f'
  }

  predicate ValidMsgId(id: string) {
    |id| == 16 && forall i :: 0 <= i < |id| ==> Hex(id[i])
  }

  /** A lower-case UUID. */
  predicate ValidSession(sid: string) {
    |sid| == 36 && forall i :: 0 <= i < |sid| ==> if i in {8, 13, 18, 23} then sid[i] == '-' else Hex(sid[i])
  }

  predicate ValidKind(k: string) {
    k == "ask" || k == "ping" || k == "tell" || k == "ask-ro"
  }

  function Get(m: map<string, string>, k: string): string {
    if k in m then m[k] else ""
  }

  function DropWhile(p: char -> bool, s: string): (r: string)
    ensures |r| <= |s|
  {
    if s != [] && p(s[0]) then DropWhile(p, s[1..]) else s
  }

  /** Index of the first character of the set, or the length. */
  function IndexOf(cs: set<char>, s: string): (i: nat)
    ensures i <= |s|
  {
    if s == [] || s[0] in cs then 0 else 1 + IndexOf(cs, s[1..])
  }

  predicate ContainsAny(cs: set<char>, s: string) {
    exists i :: 0 <= i < |s| && s[i] in cs
  }

  /** One token off the front: its key, its value, and what follows. */
  function Token(rest: string): Option<(string, string, string)> {
    var eq := IndexOf({'='}, rest);
    if eq == 0 || eq == |rest| || ContainsAny({' ', ']', '"'}, rest[..eq]) then None
    else
      var after := rest[eq + 1..];
      if after != [] && after[0] == '"' then
        var end := IndexOf({'"'}, after[1..]);
        if end == |after| - 1 then None else Some((rest[..eq], after[1..1 + end], after[2 + end..]))
      else
        var end := IndexOf({' ', ']'}, after);
        if end == |after| then None else Some((rest[..eq], after[..end], after[end..]))
  }

  lemma TokenShrinks(rest: string)
    ensures Token(rest).Some? ==> |Token(rest).value.2| < |rest|
  {
  }

  /** The fields up to the closing bracket; no key twice. */
  function Fields(text: string, fields: map<string, string>): Option<map<string, string>>
    decreases |text|
  {
    var rest := DropWhile(c => c == ' ', text);
    if rest != [] && rest[0] == ']' then Some(fields)
    else
      TokenShrinks(rest);
      match Token(rest)
      case None => None
      case Some((key, val, more)) => if key in fields then None else Fields(more, fields[key := val])
  }

  /** Every field is validated; names are not. */
  function Checked(fields: map<string, string>): Option<Header> {
    var h := Header(Get(fields, "id"), Get(fields, "kind"), Get(fields, "from_sid"), Get(fields, "to_sid"),
                    Get(fields, "from"), Get(fields, "to"));
    if ValidMsgId(h.id) && ValidKind(h.kind) && ValidSession(h.fromSid) && ValidSession(h.toSid) then Some(h) else None
  }

  function Parsed(line: string): Option<Header> {
    if OPENING <= line then
      match Fields(line[|OPENING|..], map[])
      case None => None
      case Some(fields) => Checked(fields)
    else None
  }

  /** `ParseHeader` */
  method ParseHeader(line: string) returns (h: Option<Header>)
    ensures h == Parsed(line)
  {
    if !(OPENING <= line) { return None; }
    var rest := line[|OPENING|..];
    var fields: map<string, string> := map[];
    while true
      invariant Fields(rest, fields) == Fields(line[|OPENING|..], map[])
      decreases |rest|
    {
      var start := DropWhile(c => c == ' ', rest);
      if start != [] && start[0] == ']' { break; }
      TokenShrinks(start);
      var token := Token(start);
      if token.None? { return None; }
      var (key, val, more) := token.value;
      if key in fields { return None; }
      rest, fields := more, fields[key := val];
    }
    return Checked(fields);
  }

  // ---------------------------------------------------------------------------------------
  // What opens a message
  // ---------------------------------------------------------------------------------------

  predicate WhiteSpace(c: char) {
    c == ' ' || c == '\t' || c == '\n' || c == '\r' || c as int == 12
  }

  predicate Blank(c: char) {
    c == ' ' || c == '\t' || c == '\n' || c == '\r'
  }

  /** The delivery wrapper at the very start, removed: white space, the prefix line if the wrapper follows
      it, the opening tag, white space. */
  function Unwrapped(text: string): string {
    var t := DropWhile(WhiteSpace, text);
    var u := if DELIVERY <= t then DropWhile(WhiteSpace, t[|DELIVERY|..]) else t;
    if WRAPPER <= u then
      var end := IndexOf({'>'}, u);
      if end == |u| then text else DropWhile(WhiteSpace, u[end + 1..])
    else text
  }

  function FirstLine(text: string): string {
    text[..IndexOf({'\n'}, text)]
  }

  /** `leadingHeader` */
  function Leading(text: string): Option<Header> {
    Parsed(FirstLine(DropWhile(Blank, Unwrapped(text))))
  }

  // ---------------------------------------------------------------------------------------
  // The printed header
  // ---------------------------------------------------------------------------------------

  datatype Field = Bare(key: string, val: string) | Quoted(key: string, val: string)

  function PrintField(f: Field): string {
    match f
    case Bare(key, val) => key + ['='] + val
    case Quoted(key, val) => key + ['='] + (['"'] + val + ['"'])
  }

  /** Fields a space apart, and the closing bracket. */
  function PrintFields(fs: seq<Field>): string {
    if fs == [] then [']']
    else if |fs| == 1 then PrintField(fs[0]) + [']']
    else PrintField(fs[0]) + [' '] + PrintFields(fs[1..])
  }

  predicate Without(cs: set<char>, s: string) {
    forall i :: 0 <= i < |s| ==> s[i] !in cs
  }

  predicate ValidField(f: Field) {
    && f.key != "" && Without({' ', ']', '"', '='}, f.key)
    && (match f
        case Bare(_, val) => val != "" && Without({' ', ']', '"'}, val)
        case Quoted(_, val) => Without({'"'}, val))
  }

  function FieldsOf(h: Header): seq<Field> {
    [Bare("id", h.id), Bare("kind", h.kind), Bare("from_sid", h.fromSid), Bare("to_sid", h.toSid),
     Quoted("from", h.from), Quoted("to", h.to)]
  }

  /** The line `Frame` prints. */
  function Print(h: Header): string {
    OPENING + PrintFields(FieldsOf(h))
  }

  lemma {:induction false} IndexAt(cs: set<char>, s: string, c: char, more: string)
    requires Without(cs, s) && c in cs
    ensures IndexOf(cs, s + [c] + more) == |s|
  {
    var all := s + [c] + more;
    if s != [] {
      assert s[0] !in cs && all[0] == s[0];
      assert forall i :: 0 <= i < |s[1..]| ==> s[1..][i] == s[i + 1];
      IndexAt(cs, s[1..], c, more);
      assert all[1..] == s[1..] + [c] + more;
    }
  }

  lemma KeyOfToken(key: string, after: string)
    requires key != "" && Without({' ', ']', '"', '='}, key)
    ensures var rest := key + ['='] + after;
            && IndexOf({'='}, rest) == |key| && rest[..|key|] == key && rest[|key| + 1..] == after
            && !ContainsAny({' ', ']', '"'}, rest[..|key|])
  {
    IndexAt({'='}, key, '=', after);
    assert (key + ['='] + after)[..|key|] == key;
  }

  lemma TokenOfBare(f: Field, c: char, more: string)
    requires ValidField(f) && f.Bare? && (c == ' ' || c == ']')
    ensures Token(PrintField(f) + [c] + more) == Some((f.key, f.val, [c] + more))
  {
    var after := f.val + [c] + more;
    FieldApart(f.key, f.val, [c], more);
    KeyOfToken(f.key, after);
    assert after[0] == f.val[0] && f.val[0] != '"';
    IndexAt({' ', ']'}, f.val, c, more);
    StartsWith(f.val, [c] + more);
    assert after == f.val + ([c] + more);
  }

  lemma FieldApart(key: string, val: string, c: string, more: string)
    ensures key + ['='] + val + c + more == key + ['='] + (val + c + more)
  {
  }

  lemma TokenOfQuoted(f: Field, c: char, more: string)
    requires ValidField(f) && f.Quoted?
    ensures Token(PrintField(f) + [c] + more) == Some((f.key, f.val, [c] + more))
  {
    var after := ['"'] + f.val + ['"'] + ([c] + more);
    assert PrintField(f) + [c] + more == f.key + ['='] + after;
    KeyOfToken(f.key, after);
    assert after[1..] == f.val + ['"'] + ([c] + more);
    IndexAt({'"'}, f.val, '"', [c] + more);
    var end := |f.val|;
    assert after[1..1 + end] == f.val && after[2 + end..] == [c] + more;
  }

  function AsMap(fields: map<string, string>, fs: seq<Field>): map<string, string>
    decreases |fs|
  {
    if fs == [] then fields else AsMap(fields[fs[0].key := fs[0].val], fs[1..])
  }

  predicate NewKeys(fields: map<string, string>, fs: seq<Field>) {
    && (forall i :: 0 <= i < |fs| ==> fs[i].key !in fields)
    && forall i, j :: 0 <= i < j < |fs| ==> fs[i].key != fs[j].key
  }

  lemma NoSpaceAhead(text: string)
    requires text != [] && text[0] != ' '
    ensures DropWhile(c => c == ' ', text) == text
  {
  }

  lemma OneSpaceAhead(text: string)
    requires text != [] && text[0] != ' '
    ensures DropWhile(c => c == ' ', [' '] + text) == text
  {
    assert ([' '] + text)[1..] == text;
  }

  /** Reading one printed field. */
  lemma FieldsOfOne(f: Field, c: char, more: string, fields: map<string, string>)
    requires ValidField(f) && f.key !in fields && (c == ' ' || c == ']')
    ensures Fields(PrintField(f) + [c] + more, fields) == Fields([c] + more, fields[f.key := f.val])
  {
    var text := PrintField(f) + [c] + more;
    assert text[0] == f.key[0];
    NoSpaceAhead(text);
    if f.Bare? {
      TokenOfBare(f, c, more);
    } else {
      TokenOfQuoted(f, c, more);
    }
  }

  lemma {:induction false} FieldsOfPrint(fs: seq<Field>, fields: map<string, string>, spaced: bool)
    requires (forall i :: 0 <= i < |fs| ==> ValidField(fs[i])) && NewKeys(fields, fs)
    ensures Fields((if spaced then [' '] else []) + PrintFields(fs), fields) == Some(AsMap(fields, fs))
    decreases |fs|
  {
    var text := PrintFields(fs);
    if fs == [] {
      OneSpaceAhead(text);
      assert [] + text == text;
    } else {
      var f, rest := fs[0], fs[1..];
      var next := fields[f.key := f.val];
      assert forall i :: 0 <= i < |rest| ==> rest[i] == fs[i + 1];
      FieldsOfPrint(rest, next, true);
      FieldsOfPrint(rest, next, false);
      if |fs| == 1 {
        FieldsOfOne(f, ']', [], fields);
        assert PrintField(f) + [']'] + [] == text;
        assert [']'] + [] == [']'] && [] + PrintFields(rest) == [']'];
      } else {
        FieldsOfOne(f, ' ', PrintFields(rest), fields);
        assert PrintField(f) + [' '] + PrintFields(rest) == text;
      }
      assert text[0] == f.key[0];
      SpaceDoesNotMatter(text, fields);
      assert [] + text == text;
    }
  }

  lemma SpaceDoesNotMatter(text: string, fields: map<string, string>)
    requires text != [] && text[0] != ' '
    ensures Fields([' '] + text, fields) == Fields(text, fields)
  {
    OneSpaceAhead(text);
    NoSpaceAhead(text);
  }

  // ---------------------------------------------------------------------------------------
  // The round trip
  // ---------------------------------------------------------------------------------------

  /** What `Frame` prints: valid ids and kind, and labels without quotes or line breaks, as every valid
      name is. */
  predicate Printable(h: Header) {
    && ValidMsgId(h.id) && ValidKind(h.kind) && ValidSession(h.fromSid) && ValidSession(h.toSid)
    && Without({'"', '\n'}, h.from) && Without({'"', '\n'}, h.to)
  }

  lemma KindIsBare(k: string)
    requires ValidKind(k)
    ensures k != "" && Without({' ', ']', '"', '\n'}, k)
  {
  }

  lemma IdsAreBare(h: Header)
    requires Printable(h)
    ensures Without({' ', ']', '"', '\n'}, h.id) && Without({' ', ']', '"', '\n'}, h.fromSid)
            && Without({' ', ']', '"', '\n'}, h.toSid)
  {
    forall i | 0 <= i < 36
      ensures h.fromSid[i] !in {' ', ']', '"', '\n'} && h.toSid[i] !in {' ', ']', '"', '\n'}
    {
      assert i in {8, 13, 18, 23} || (Hex(h.fromSid[i]) && Hex(h.toSid[i]));
    }
  }

  lemma FieldsAreValid(h: Header)
    requires Printable(h)
    ensures forall i :: 0 <= i < 6 ==> ValidField(FieldsOf(h)[i])
  {
    KindIsBare(h.kind);
    IdsAreBare(h);
  }

  lemma KeysAreDistinct(h: Header)
    ensures NewKeys(map[], FieldsOf(h))
  {
    var fs := FieldsOf(h);
    assert |"id"| == 2 && |"kind"| == 4 && |"from_sid"| == 8 && |"to_sid"| == 6 && |"from"| == 4 && |"to"| == 2;
    assert "id"[0] == 'i' && "to"[0] == 't' && "kind"[0] == 'k' && "from"[0] == 'f';
  }

  function FieldMap(h: Header): map<string, string> {
    map["id" := h.id]["kind" := h.kind]["from_sid" := h.fromSid]["to_sid" := h.toSid]["from" := h.from]["to" := h.to]
  }

  lemma SixFields(h: Header)
    ensures AsMap(map[], FieldsOf(h)) == FieldMap(h)
  {
    var fs := FieldsOf(h);
    assert fs[1..][1..] == fs[2..] && fs[2..][1..] == fs[3..] && fs[3..][1..] == fs[4..]
           && fs[4..][1..] == fs[5..] && fs[5..][1..] == [];
    var m2 := map["id" := h.id]["kind" := h.kind];
    var m4 := m2["from_sid" := h.fromSid]["to_sid" := h.toSid];
    assert AsMap(map[], fs) == AsMap(map["id" := h.id], fs[1..]) == AsMap(m2, fs[2..]);
    assert AsMap(m2, fs[2..]) == AsMap(m2["from_sid" := h.fromSid], fs[3..]) == AsMap(m4, fs[4..]);
    assert AsMap(m4, fs[4..]) == AsMap(m4["from" := h.from], fs[5..]);
  }

  /** The parser returns exactly the fields printed. */
  lemma PrintedParses(h: Header)
    requires Printable(h)
    ensures Parsed(Print(h)) == Some(h)
  {
    FieldsAreValid(h);
    KeysAreDistinct(h);
    FieldsOfPrint(FieldsOf(h), map[], false);
    assert [] + PrintFields(FieldsOf(h)) == PrintFields(FieldsOf(h));
    assert Print(h)[|OPENING|..] == PrintFields(FieldsOf(h));
    SixFields(h);
    KeysApart(h);
  }

  lemma KeysApart(h: Header)
    ensures var m := FieldMap(h);
            && Get(m, "id") == h.id && Get(m, "kind") == h.kind && Get(m, "from_sid") == h.fromSid
            && Get(m, "to_sid") == h.toSid && Get(m, "from") == h.from && Get(m, "to") == h.to
  {
    KeysAreDistinct(h);
    var fs := FieldsOf(h);
    assert forall i, j :: 0 <= i < j < 6 ==> fs[i].key != fs[j].key;
    assert fs[0].key != fs[1].key && fs[1].key != fs[2].key && fs[2].key != fs[3].key
           && fs[3].key != fs[4].key && fs[4].key != fs[5].key;
    assert fs[0].key != fs[2].key && fs[0].key != fs[3].key && fs[0].key != fs[4].key && fs[0].key != fs[5].key;
    assert fs[1].key != fs[3].key && fs[1].key != fs[4].key && fs[1].key != fs[5].key;
    assert fs[2].key != fs[4].key && fs[2].key != fs[5].key && fs[3].key != fs[5].key;
  }

  // ---------------------------------------------------------------------------------------
  // At the head of a message
  // ---------------------------------------------------------------------------------------

  predicate Unbroken(s: string) {
    Without({'\n'}, s)
  }

  lemma {:induction false} FieldsUnbroken(fs: seq<Field>)
    requires forall i :: 0 <= i < |fs| ==> Unbroken(fs[i].key) && Unbroken(fs[i].val)
    ensures Unbroken(PrintFields(fs))
  {
    if |fs| > 1 {
      assert forall i :: 0 <= i < |fs[1..]| ==> fs[1..][i] == fs[i + 1];
      FieldsUnbroken(fs[1..]);
    }
  }

  lemma PrintUnbroken(h: Header)
    requires Printable(h)
    ensures Unbroken(Print(h)) && Print(h) != "" && Print(h)[0] == '['
  {
    KindIsBare(h.kind);
    IdsAreBare(h);
    FieldsUnbroken(FieldsOf(h));
    assert Unbroken(OPENING);
  }

  lemma {:induction false} Dropped(p: char -> bool, ws: string, t: string)
    requires (forall i :: 0 <= i < |ws| ==> p(ws[i])) && (t == [] || !p(t[0]))
    ensures DropWhile(p, ws + t) == t
  {
    if ws == [] {
      assert ws + t == t;
    } else {
      Dropped(p, ws[1..], t);
      assert (ws + t)[1..] == ws[1..] + t;
    }
  }

  /** What may follow the header: nothing, or a line break and any text. */
  predicate Tail(tail: string) {
    tail == "" || tail[0] == '\n'
  }

  lemma {:induction false} LineOfTail(line: string, tail: string)
    requires Unbroken(line) && Tail(tail)
    ensures FirstLine(line + tail) == line
  {
    if tail == "" {
      assert line + tail == line;
      NoneFound({'\n'}, line);
    } else {
      IndexAt({'\n'}, line, '\n', tail[1..]);
      assert line + ['\n'] + tail[1..] == line + tail;
    }
  }

  lemma {:induction false} NoneFound(cs: set<char>, s: string)
    requires Without(cs, s)
    ensures IndexOf(cs, s) == |s|
  {
    if s != [] {
      assert forall i :: 0 <= i < |s[1..]| ==> s[1..][i] == s[i + 1];
      NoneFound(cs, s[1..]);
    }
  }

  lemma PlainIsNotWrapped(ws: string, t: string)
    requires (forall i :: 0 <= i < |ws| ==> Blank(ws[i])) && t != "" && t[0] == '['
    ensures Unwrapped(ws + t) == ws + t
  {
    Dropped(WhiteSpace, ws, t);
    assert DELIVERY[0] == 'A' && WRAPPER[0] == '<';
  }

  /** The fields come back from any message that starts with a printed header, blanks before it and any
      text in the lines below. */
  lemma LeadingOfPlain(h: Header, ws: string, tail: string)
    requires Printable(h) && (forall i :: 0 <= i < |ws| ==> Blank(ws[i])) && Tail(tail)
    ensures Leading(ws + Print(h) + tail) == Some(h)
  {
    PrintUnbroken(h);
    assert ws + Print(h) + tail == ws + (Print(h) + tail);
    PlainIsNotWrapped(ws, Print(h) + tail);
    Dropped(Blank, ws, Print(h) + tail);
    LineOfTail(Print(h), tail);
    PrintedParses(h);
  }

  /** A tag and what follows it, up to its first `>`. */
  lemma TagEnds(head: string, rest: string)
    requires Without({'>'}, head)
    ensures var u := head + ['>'] + rest;
            IndexOf({'>'}, u) == |head| && u[|head| + 1..] == rest
  {
    IndexAt({'>'}, head, '>', rest);
  }

  /** A text whose opening tag gives way to the message. */
  ghost predicate Opens(tag: string, message: string) {
    WRAPPER <= tag && IndexOf({'>'}, tag) < |tag| && DropWhile(WhiteSpace, tag[IndexOf({'>'}, tag) + 1..]) == message
  }

  lemma TagOpens(attributes: string, ws: string, message: string)
    requires Without({'>'}, attributes) && (forall i :: 0 <= i < |ws| ==> WhiteSpace(ws[i]))
             && message != "" && message[0] == '['
    ensures Opens(WRAPPER + attributes + ['>'] + (ws + message), message)
  {
    assert Without({'>'}, WRAPPER);
    TagEnds(WRAPPER + attributes, ws + message);
    Dropped(WhiteSpace, ws, message);
  }

  lemma UnwrapsPlain(before: string, tag: string, message: string)
    requires Opens(tag, message) && forall i :: 0 <= i < |before| ==> WhiteSpace(before[i])
    ensures Unwrapped(before + tag) == message
  {
    assert DELIVERY[0] == 'A' && WRAPPER[0] == '<' && tag[0] == '<';
    Dropped(WhiteSpace, before, tag);
  }

  lemma UnwrapsDelivered(before: string, between: string, tag: string, message: string)
    requires Opens(tag, message) && forall i :: 0 <= i < |before| ==> WhiteSpace(before[i])
    requires forall i :: 0 <= i < |between| ==> WhiteSpace(between[i])
    ensures Unwrapped(before + (DELIVERY + (between + tag))) == message
  {
    assert DELIVERY[0] == 'A' && tag[0] == WRAPPER[0] == '<';
    Dropped(WhiteSpace, before, DELIVERY + (between + tag));
    StartsWith(DELIVERY, between + tag);
    Dropped(WhiteSpace, between, tag);
  }

  lemma StartsWith(a: string, b: string)
    ensures a <= a + b && (a + b)[|a|..] == b
  {
  }

  /** The same behind the wrapper of a delivered message, with or without the delivery line before it. */
  lemma LeadingOfWrapped(h: Header, before: string, delivered: bool, between: string, attributes: string,
                         ws: string, tail: string)
    requires Printable(h) && Tail(tail) && Without({'>'}, attributes)
    requires forall i :: 0 <= i < |before| ==> WhiteSpace(before[i])
    requires forall i :: 0 <= i < |between| ==> WhiteSpace(between[i])
    requires forall i :: 0 <= i < |ws| ==> WhiteSpace(ws[i])
    ensures var tag := WRAPPER + attributes + ['>'] + (ws + (Print(h) + tail));
            Leading(before + (if delivered then DELIVERY + (between + tag) else tag)) == Some(h)
  {
    var message := Print(h) + tail;
    PrintUnbroken(h);
    TagOpens(attributes, ws, message);
    var tag := WRAPPER + attributes + ['>'] + (ws + message);
    if delivered {
      UnwrapsDelivered(before, between, tag, message);
    } else {
      UnwrapsPlain(before, tag, message);
    }
    Dropped(Blank, "", message);
    assert "" + message == message;
    LineOfTail(Print(h), tail);
    PrintedParses(h);
  }
}
