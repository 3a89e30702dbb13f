/** Reading the tail of a transcript: chunks from the end of the file with a carried partial
    line, against plain reading from the front. */
module Transcript {
  import opened Lines
  import opened Option

  const NL: char := '\n'

  datatype Kind = TextTurn | Inbound | Tool | Result | End

  /** One recognized record: `id` ties a result to its tool use, `input` is a tool use's input. */
  datatype Record = Record(kind: Kind, id: string, tool: string, input: string, text: string)

  /** What the text between two newlines holds: nothing but white space, something that is not
      recognized, or records. */
  datatype Line = Blank | Unrecognized | Recognized(recs: seq<Record>)

  /** White space trimming, JSON and redaction of one line: any function of the line that finds the
      empty line blank. */
  type Parser = string -> Line

  function LineRecords(parse: Parser, line: string): seq<Record> {
    var l := parse(line);
    if l.Recognized? then l.recs else []
  }

  /** The meaning of a list of lines: their records, oldest first. */
  function Records(parse: Parser, lines: seq<string>): seq<Record> {
    if lines == [] then [] else LineRecords(parse, lines[0]) + Records(parse, lines[1..])
  }

  function Filled(parse: Parser, lines: seq<string>): nat {
    if lines == [] then 0 else (if parse(lines[0]).Blank? then 0 else 1) + Filled(parse, lines[1..])
  }

  function Reverse<T>(s: seq<T>): (r: seq<T>)
    ensures |r| == |s|
    ensures forall i :: 0 <= i < |s| ==> r[i] == s[|s| - 1 - i]
  {
    if s == [] then [] else Reverse(s[1..]) + [s[0]]
  }

  /** The whole lines of the file from `from` on: all lines from the start of the file, else those
      after the first newline. */
  function WholeLines(file: string, from: nat): seq<string>
    requires from <= |file|
  {
    if from == 0 then Split(file, NL) else Split(file[from..], NL)[1..]
  }

  lemma {:induction false} RecordsConcat(parse: Parser, a: seq<string>, b: seq<string>)
    ensures Records(parse, a + b) == Records(parse, a) + Records(parse, b)
    ensures Filled(parse, a + b) == Filled(parse, a) + Filled(parse, b)
  {
    if a == [] {
      assert a + b == b;
    } else {
      RecordsConcat(parse, a[1..], b);
      RecordsPrepend(parse, a[0], a[1..]);
      RecordsPrepend(parse, a[0], a[1..] + b);
      assert [a[0]] + a[1..] == a && [a[0]] + (a[1..] + b) == a + b;
      Assoc(LineRecords(parse, a[0]), Records(parse, a[1..]), Records(parse, b));
    }
  }

  lemma Assoc<T>(a: seq<T>, b: seq<T>, c: seq<T>)
    ensures a + (b + c) == (a + b) + c
  {
  }

  lemma RecordsPrepend(parse: Parser, line: string, rest: seq<string>)
    ensures Records(parse, [line] + rest) == LineRecords(parse, line) + Records(parse, rest)
    ensures Filled(parse, [line] + rest) == (if parse(line).Blank? then 0 else 1) + Filled(parse, rest)
  {
    assert ([line] + rest)[1..] == rest;
  }

  lemma ReverseConcat<T>(a: seq<T>, b: seq<T>)
    ensures Reverse(a + b) == Reverse(b) + Reverse(a)
  {
  }

  /** One line: its records, last first, behind what is pending already. */
  method AppendReversed(recs: seq<Record>, before: seq<Record>) returns (pending: seq<Record>)
    ensures pending == before + Reverse(recs)
  {
    pending := before;
    var j := |recs|;
    while j > 0
      invariant 0 <= j <= |recs|
      invariant pending == before + Reverse(recs[j..])
    {
      j := j - 1;
      assert recs[j..] == [recs[j]] + recs[j + 1..];
      pending := pending + [recs[j]];
    }
    assert recs[0..] == recs;
  }

  lemma ReverseNext(parse: Parser, part: string, rest: seq<string>)
    ensures Reverse(Records(parse, [part] + rest)) == Reverse(Records(parse, rest)) + Reverse(LineRecords(parse, part))
  {
    RecordsPrepend(parse, part, rest);
    ReverseConcat(LineRecords(parse, part), Records(parse, rest));
  }

  /** The lines of one chunk, last line first. */
  method ParseBackward(parse: Parser, parts: seq<string>) returns (pending: seq<Record>, lines: nat, skipped: nat)
    ensures pending == Reverse(Records(parse, parts)) && lines == Filled(parse, parts) && skipped <= lines
  {
    pending, lines, skipped := [], 0, 0;
    var i := |parts|;
    assert parts[i..] == [];
    while i > 0
      invariant 0 <= i <= |parts|
      invariant pending == Reverse(Records(parse, parts[i..])) && lines == Filled(parse, parts[i..]) && skipped <= lines
    {
      i := i - 1;
      assert parts[i..] == [parts[i]] + parts[i + 1..];
      ReverseNext(parse, parts[i], parts[i + 1..]);
      RecordsPrepend(parse, parts[i], parts[i + 1..]);
      match parse(parts[i]) {
        case Blank =>
        case Unrecognized =>
          lines, skipped := lines + 1, skipped + 1;
        case Recognized(recs) =>
          lines := lines + 1;
          pending := AppendReversed(recs, pending);
      }
    }
    assert parts[0..] == parts;
  }

  /** The lines known when the file was read back to `offset`: a partial one and whole ones. */
  ghost predicate ReadBack(file: string, offset: nat, carry: string, whole: seq<string>) {
    offset <= |file| && Split(file[offset..], NL) == if offset > 0 then [carry] + whole else whole
  }

  /** One more chunk in front. */
  lemma ChunkInFront(file: string, start: nat, end: nat, carry: string, whole: seq<string>)
    requires start < end && ReadBack(file, end, carry, whole)
    ensures var parts := Split(file[start..end] + carry, NL);
            ReadBack(file, start, parts[0], (if start > 0 then parts[1..] else parts) + whole)
  {
    assert file[start..] == file[start..end] + file[end..];
    SplitPrepend(file[start..end], file[end..], NL);
    assert ([carry] + whole)[1..] == whole;
    var parts := Split(file[start..end] + carry, NL);
    assert parts + whole == [parts[0]] + (parts[1..] + whole);
  }

  /** What the outer loop keeps: splitting the bytes read so far gives the carried piece followed
      by the lines already parsed, and nothing else was parsed. */
  ghost predicate Progress(parse: Parser, file: string, offset: nat, carry: string, whole: seq<string>,
                           newest: seq<Record>, lines: nat)
  {
    && ReadBack(file, offset, carry, whole)
    && newest == Reverse(Records(parse, whole)) && lines == Filled(parse, whole)
  }

  /** One round of the outer loop: the bytes from `start` to `end`. */
  method TakeChunk(file: string, start: nat, end: nat, parse: Parser, carry: string, newest: seq<Record>,
                   lines: nat, ghost whole: seq<string>)
    returns (carry': string, newest': seq<Record>, lines': nat, ghost whole': seq<string>)
    requires start < end && end <= |file| && Progress(parse, file, end, carry, whole, newest, lines)
    ensures Progress(parse, file, start, carry', whole', newest', lines')
  {
    var buf := file[start..end];
    var data := buf + carry;
    ChunkInFront(file, start, end, carry, whole);
    var parts := Split(data, NL);
    if start > 0 {
      carry' := parts[0];
      parts := parts[1..];
    } else {
      carry' := [];
    }
    whole' := parts + whole;
    var pending, filled, skipped := ParseBackward(parse, parts);
    lines' := lines + filled;
    newest' := newest + pending;
    RecordsConcat(parse, parts, whole);
    ReverseConcat(Records(parse, parts), Records(parse, whole));
  }

  /** Reading backward in whole chunks from the end passes this offset. */
  predicate ChunkEnds(file: string, chunk: nat, at: nat)
    requires chunk >= 1
    decreases |file| - at
  {
    at == |file| || (at < |file| && ChunkEnds(file, chunk, at + chunk))
  }

  lemma {:induction false} NoEndBetween(file: string, chunk: nat, a: nat, b: nat)
    requires chunk >= 1 && a < b < a + chunk && ChunkEnds(file, chunk, b)
    ensures !ChunkEnds(file, chunk, a)
    decreases |file| - b
  {
    if b < |file| {
      NoEndBetween(file, chunk, a + chunk, b + chunk);
    }
  }

  /** Every chunk end behind `from` was one to go on from: the limit not reached, and not told to stop. */
  ghost predicate WentOn(file: string, chunk: nat, max: nat, parse: Parser, stop: seq<Record> -> bool, from: nat)
    requires chunk >= 1
  {
    forall b: nat :: from < b < |file| && ChunkEnds(file, chunk, b) ==>
      |file| - b < max && !stop(Reverse(Records(parse, WholeLines(file, b))))
  }

  lemma GoesOn(file: string, chunk: nat, max: nat, parse: Parser, stop: seq<Record> -> bool, offset: nat, from: nat)
    requires chunk >= 1 && offset <= |file| && from == if chunk > offset then 0 else offset - chunk
    requires ChunkEnds(file, chunk, offset) && |file| - offset < max
    requires offset < |file| ==> !stop(Reverse(Records(parse, WholeLines(file, offset))))
    requires WentOn(file, chunk, max, parse, stop, offset)
    ensures WentOn(file, chunk, max, parse, stop, from) && (from == 0 || ChunkEnds(file, chunk, from))
  {
    forall b: nat | from < b < |file| && ChunkEnds(file, chunk, b)
      ensures |file| - b < max && !stop(Reverse(Records(parse, WholeLines(file, b))))
    {
      if b < offset {
        NoEndBetween(file, chunk, b, offset);
      }
    }
  }

  lemma ReadSoFar(parse: Parser, file: string, offset: nat, carry: string, whole: seq<string>, newest: seq<Record>,
                  lines: nat)
    requires 0 < offset && Progress(parse, file, offset, carry, whole, newest, lines)
    ensures newest == Reverse(Records(parse, WholeLines(file, offset)))
  {
    assert ([carry] + whole)[1..] == whole;
  }

  /** What the loop of `readBackward` keeps. */
  ghost predicate Reading(file: string, chunk: nat, max: nat, parse: Parser, stop: seq<Record> -> bool, offset: nat,
                          carry: string, whole: seq<string>, newest: seq<Record>, lines: nat)
  {
    && chunk >= 1 && offset <= |file| && |file| - offset < max + chunk
    && (file != [] ==> Progress(parse, file, offset, carry, whole, newest, lines))
    && (file == [] ==> newest == [] && lines == 0)
    && (offset == 0 || ChunkEnds(file, chunk, offset))
    && WentOn(file, chunk, max, parse, stop, offset)
  }

  /** One more round, when the last one did not say to stop. */
  lemma ReadingGoesOn(file: string, chunk: nat, max: nat, parse: Parser, stop: seq<Record> -> bool, offset: nat,
                      carry: string, whole: seq<string>, newest: seq<Record>, lines: nat, from: nat)
    requires Reading(file, chunk, max, parse, stop, offset, carry, whole, newest, lines)
    requires 0 < offset && |file| - offset < max && (offset < |file| ==> !stop(newest))
    requires from == if chunk > offset then 0 else offset - chunk
    ensures WentOn(file, chunk, max, parse, stop, from) && (from == 0 || ChunkEnds(file, chunk, from))
  {
    ReadSoFar(parse, file, offset, carry, whole, newest, lines);
    GoesOn(file, chunk, max, parse, stop, offset, from);
  }

  /** `readBackward`, up to resolving results. `stop` sees the records so far, newest first; `from` is how far
      back the file was read: whole chunks, and no further than to the first one that was enough. */
  method ReadBackward(file: string, chunk: nat, max: nat, parse: Parser, stop: seq<Record> -> bool)
    returns (out: seq<Record>, lines: nat, from: nat)
    requires chunk >= 1 && parse([]) == Blank
    ensures from <= |file|
    ensures out == Records(parse, WholeLines(file, from))
    ensures lines == Filled(parse, WholeLines(file, from))
    ensures from == 0 || |file| - from >= max || stop(Reverse(out))
    ensures |file| - from < max + chunk
    ensures from == 0 || ChunkEnds(file, chunk, from)
    ensures from == |file| <==> file == [] || max == 0
    ensures WentOn(file, chunk, max, parse, stop, from)
  {
    var newest, carry;
    ghost var whole;
    newest, lines, from, carry, whole := ReadChunks(file, chunk, max, parse, stop);
    out := Chronological(newest);
    ReadIsWhole(parse, file, from, carry, whole, newest, lines);
  }

  /** The loop over the chunks. */
  method ReadChunks(file: string, chunk: nat, max: nat, parse: Parser, stop: seq<Record> -> bool)
    returns (newest: seq<Record>, lines: nat, from: nat, carry: string, ghost whole: seq<string>)
    requires chunk >= 1
    ensures Reading(file, chunk, max, parse, stop, from, carry, whole, newest, lines)
    ensures from == 0 || |file| - from >= max || stop(newest)
    ensures from == |file| <==> file == [] || max == 0
  {
    var read: nat, offset: nat := 0, |file|;
    newest, carry, whole, lines := [], [], [], 0;
    assert file[|file|..] == [];
    while offset > 0 && read < max
      invariant offset + read == |file| && (offset == |file| <==> read == 0) && (read > 0 ==> max > 0)
      invariant Reading(file, chunk, max, parse, stop, offset, carry, whole, newest, lines)
      invariant 0 < offset < |file| ==> !stop(newest)
      decreases offset
    {
      var n := if chunk > offset then offset else chunk;
      ReadingGoesOn(file, chunk, max, parse, stop, offset, carry, whole, newest, lines, offset - n);
      carry, newest, lines, whole := TakeChunk(file, offset - n, offset, parse, carry, newest, lines, whole);
      offset := offset - n;
      read := read + n;
      if stop(newest) { break; }
    }
    from := offset;
  }

  lemma ReadIsWhole(parse: Parser, file: string, from: nat, carry: string, whole: seq<string>, newest: seq<Record>,
                    lines: nat)
    requires from <= |file| && parse([]) == Blank
    requires file != [] ==> Progress(parse, file, from, carry, whole, newest, lines)
    requires file == [] ==> newest == [] && lines == 0
    ensures Reverse(newest) == Records(parse, WholeLines(file, from)) && lines == Filled(parse, WholeLines(file, from))
    ensures Reverse(Reverse(newest)) == newest
  {
    ReverseTwice(newest);
    if file == [] {
      assert WholeLines(file, from) == [[]] + [];
      RecordsPrepend(parse, [], []);
    } else {
      ReverseTwice(Records(parse, whole));
      if from == 0 {
        assert file[0..] == file;
      } else {
        assert ([carry] + whole)[1..] == whole;
      }
    }
  }

  lemma ReverseTwice<T>(s: seq<T>)
    ensures Reverse(Reverse(s)) == s
  {
  }

  /** The last loop of `readBackward`: newest first becomes oldest first. */
  method Chronological(newest: seq<Record>) returns (out: seq<Record>)
    ensures out == Reverse(newest)
  {
    out := [];
    var i := 0;
    while i < |newest|
      invariant 0 <= i <= |newest| && |out| == i
      invariant forall j :: 0 <= j < i ==> out[j] == newest[i - 1 - j]
    {
      out := [newest[i]] + out;
      i := i + 1;
    }
  }
}
