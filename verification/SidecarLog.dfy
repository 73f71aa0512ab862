/** The threading sidecar on disk: internal/userstate/threads. */
module SidecarLog {
  import opened Basics
  import opened Numbers
  import opened Text
  import opened ThreadPlacement

  /** One log record: `M`, `S`, `G` and `A` as in the package's contract, `C` heading a compacted file. */
  datatype Record = Record(tag: string, key: string, val: string)

  // ----- one line -----

  function Flatten(s: string): (r: string)
    ensures |r| == |s|
    ensures Flat(r)
  {
    if s == [] then [] else [if s[0] in {'\t', '\n', '\r'} then ' ' else s[0]] + Flatten(s[1..])
  }

  predicate Flat(s: string) {
    '\t' !in s && '\n' !in s && '\r' !in s
  }

  lemma {:induction false} FlattenFlat(s: string)
    ensures Flatten(s) == s <==> Flat(s)
  {
    if s != [] {
      FlattenFlat(s[1..]);
      assert s == [s[0]] + s[1..];
    }
  }

  function Written(r: Record): Record {
    Record(r.tag, Flatten(r.key), Flatten(r.val))
  }

  function Body(r: Record): string {
    r.tag + ['\t'] + (r.key + ['\t'] + r.val)
  }

  /** `writeRec`: type, key and value, tab-separated and flattened, LF-terminated. */
  function Line(r: Record): string {
    Body(Written(r)) + ['\n']
  }

  function Render(rs: seq<Record>): string {
    if rs == [] then "" else Line(rs[0]) + Render(rs[1..])
  }

  function TrimCR(line: string): string {
    if line != [] && line[|line| - 1] == '\r' then line[..|line| - 1] else line
  }

  /** One scanned line: a record if it has three fields, nothing otherwise. */
  function ParseLine(line: string): seq<Record> {
    var fields := Split(TrimCR(line), '\t');
    if |fields| == 3 then [Record(fields[0], fields[1], fields[2])] else []
  }

  function ParseLines(lines: seq<string>): seq<Record> {
    if lines == [] then [] else ParseLine(lines[0]) + ParseLines(lines[1..])
  }

  /** Every record a reader finds in the file; an unterminated tail is a line too. */
  function Parse(text: string): seq<Record> {
    ParseLines(Split(text, '\n'))
  }

  /** A file every append to which was completed. */
  predicate Complete(text: string) {
    text == [] || text[|text| - 1] == '\n'
  }

  predicate FlatRecord(r: Record) {
    Flat(r.tag) && Flat(r.key) && Flat(r.val)
  }

  lemma BodyFlat(r: Record)
    requires '\n' !in r.tag && Flat(r.key) && Flat(r.val)
    ensures '\n' !in Body(r) && TrimCR(Body(r)) == Body(r)
  {
    var body, tail := Body(r), r.key + ['\t'] + r.val;
    assert body[|body| - 1] == tail[|tail| - 1];
    if r.val != [] { assert tail[|tail| - 1] == r.val[|r.val| - 1]; }
  }

  lemma BodyParses(r: Record)
    requires FlatRecord(r)
    ensures ParseLine(Body(r)) == [r]
  {
    BodyFlat(r);
    SplitField(r.tag, '\t', r.key + ['\t'] + r.val);
    SplitField(r.key, '\t', r.val);
    SplitWithout(r.val, '\t');
  }

  lemma {:induction false} ParseLinesConcat(a: seq<string>, b: seq<string>)
    ensures ParseLines(a + b) == ParseLines(a) + ParseLines(b)
  {
    if a == [] {
      assert a + b == b;
    } else {
      assert (a + b)[1..] == a[1..] + b;
      ParseLinesConcat(a[1..], b);
    }
  }

  /** A carriage return at the end of a line is not part of it. */
  lemma ReturnIsDropped(line: string)
    requires line == "" || line[|line| - 1] != '\r'
    ensures ParseLine(line + ['\r']) == ParseLine(line)
  {
    assert (line + ['\r'])[..|line|] == line;
  }

  lemma EmptyLineHasNoRecord()
    ensures ParseLines([""]) == []
  {
    assert Split("", '\t') == [""];
    assert ParseLine("") == [];
  }

  lemma ParseAfterLine(front: string, b: string)
    ensures Parse(front + ['\n'] + b) == ParseLines(Split(front, '\n')) + Parse(b)
  {
    SplitConcat(front, '\n', b);
    ParseLinesConcat(Split(front, '\n'), Split(b, '\n'));
  }

  lemma ParseNothing()
    ensures Parse("") == []
  {
    assert Split("", '\n') == [""];
    EmptyLineHasNoRecord();
  }

  lemma ParseWholeLine(front: string)
    ensures Parse(front + ['\n']) == ParseLines(Split(front, '\n'))
  {
    ParseAfterLine(front, "");
    ParseNothing();
    assert front + ['\n'] + "" == front + ['\n'];
  }

  lemma ParseAtBoundary(a: string, b: string)
    requires Complete(a)
    ensures Parse(a + b) == Parse(a) + Parse(b)
  {
    if a == [] {
      ParseNothing();
      assert a + b == b;
    } else {
      var front := a[..|a| - 1];
      assert a == front + ['\n'];
      ParseAfterLine(front, b);
      ParseWholeLine(front);
    }
  }

  lemma LineParses(r: Record)
    requires Flat(r.tag)
    ensures Parse(Line(r)) == [Written(r)] && Complete(Line(r))
  {
    BodyFlat(Written(r));
    BodyParses(Written(r));
    LineAlone(Body(Written(r)));
  }

  lemma LineAlone(body: string)
    requires '\n' !in body
    ensures Parse(body + ['\n']) == ParseLine(body)
  {
    assert body + ['\n'] == body + ['\n'] + "";
    SplitField(body, '\n', "");
    assert Split("", '\n') == [""];
    EmptyLineHasNoRecord();
    ParseLinesConcat([body], [""]);
    assert ParseLines([body]) == ParseLine(body) + ParseLines([]);
  }

  lemma AllShortConcat(a: seq<string>, b: seq<string>)
    ensures AllShort(a + b) <==> AllShort(a) && AllShort(b)
  {
    var all := a + b;
    if AllShort(all) {
      forall i | 0 <= i < |a| ensures |a[i]| < LIMIT { assert a[i] == all[i]; }
      forall i | 0 <= i < |b| ensures |b[i]| < LIMIT { assert b[i] == all[|a| + i]; }
    }
  }

  lemma LegibleAfterLine(front: string, b: string)
    ensures Legible(front + ['\n'] + b) <==> Legible(front) && Legible(b)
  {
    SplitConcat(front, '\n', b);
    AllShortConcat(Split(front, '\n'), Split(b, '\n'));
  }

  lemma LegibleLine(line: string)
    requires '\n' !in line
    ensures Legible(line) <==> |line| < LIMIT
  {
    SplitWithout(line, '\n');
    assert AllShort([line]) <==> |[line][0]| < LIMIT;
  }

  lemma LegibleNothing()
    ensures Legible("")
  {
    LegibleLine("");
  }

  lemma LegibleAtBoundary(a: string, b: string)
    requires Complete(a)
    ensures Legible(a + b) <==> Legible(a) && Legible(b)
  {
    LegibleNothing();
    if a == [] {
      assert a + b == b;
    } else {
      var front := a[..|a| - 1];
      assert a == front + ['\n'] && a == front + ['\n'] + "";
      LegibleAfterLine(front, b);
      LegibleAfterLine(front, "");
    }
  }

  /** How much of the buffer a record's line takes. */
  function Width(r: Record): nat {
    |r.tag| + |r.key| + |r.val| + 2
  }

  predicate Short(rs: seq<Record>) {
    forall i :: 0 <= i < |rs| ==> Width(rs[i]) < LIMIT
  }

  lemma LegibleRecord(r: Record)
    requires Flat(r.tag)
    ensures Legible(Line(r)) <==> Width(r) < LIMIT
  {
    var body := Body(Written(r));
    BodyFlat(Written(r));
    assert Line(r) == body + ['\n'] + "";
    LegibleAfterLine(body, "");
    LegibleLine(body);
    LegibleNothing();
  }

  function AllWritten(rs: seq<Record>): seq<Record> {
    if rs == [] then [] else [Written(rs[0])] + AllWritten(rs[1..])
  }

  ghost predicate FlatTags(rs: seq<Record>) {
    forall i :: 0 <= i < |rs| ==> Flat(rs[i].tag)
  }

  lemma AppendedLineParses(text: string, r: Record)
    requires Complete(text) && Flat(r.tag)
    ensures Complete(text + Line(r)) && Parse(text + Line(r)) == Parse(text) + [Written(r)]
  {
    ParseAtBoundary(text, Line(r));
    LineParses(r);
  }

  /**
   * Appending records to a complete file appends exactly those records, flattened, to what a reader
   * finds, and leaves the file legible exactly when none of them is too long.
   */
  lemma {:induction false} RenderParses(text: string, rs: seq<Record>)
    requires Complete(text) && FlatTags(rs)
    ensures Complete(text + Render(rs))
    ensures Parse(text + Render(rs)) == Parse(text) + AllWritten(rs)
    ensures Legible(text + Render(rs)) <==> Legible(text) && Short(rs)
    decreases rs
  {
    if rs == [] {
      assert text + Render(rs) == text;
    } else {
      AppendedLineParses(text, rs[0]);
      LegibleAtBoundary(text, Line(rs[0]));
      LegibleRecord(rs[0]);
      RenderParses(text + Line(rs[0]), rs[1..]);
      ShortParts(rs);
      Regroup(text, Line(rs[0]), Render(rs[1..]));
      Regroup(Parse(text), [Written(rs[0])], AllWritten(rs[1..]));
    }
  }

  lemma ShortParts(rs: seq<Record>)
    requires rs != []
    ensures Short(rs) <==> Width(rs[0]) < LIMIT && Short(rs[1..])
  {
    forall i | 0 <= i < |rs[1..]| ensures rs[1..][i] == rs[i + 1] {}
  }

  // ----- appending to a file whose last line a crash cut short -----

  /** The lines that were terminated. */
  function Whole(text: string): string {
    if Complete(text) then text else Whole(text[..|text| - 1])
  }

  /** The unterminated last line; empty in a complete file. */
  function Tail(text: string): string {
    if Complete(text) then "" else Tail(text[..|text| - 1]) + [text[|text| - 1]]
  }

  lemma {:induction false} WholeAndTail(text: string)
    ensures text == Whole(text) + Tail(text)
    ensures Complete(Whole(text)) && '\n' !in Tail(text)
    ensures Tail(text) == "" <==> Complete(text)
  {
    if !Complete(text) {
      WholeAndTail(text[..|text| - 1]);
    }
  }

  lemma NoNewlineParses(line: string)
    requires '\n' !in line
    ensures Parse(line) == ParseLine(line)
  {
    SplitWithout(line, '\n');
    assert ParseLines([line]) == ParseLine(line) + ParseLines([]);
  }

  lemma ParseBehind(whole: string, tail: string, line: string)
    requires Complete(whole) && '\n' !in tail && '\n' !in line
    ensures Parse(whole + tail + line) == Parse(whole) + ParseLine(tail + line)
  {
    NoNewlineParses(tail + line);
    ParseAtBoundary(whole, tail + line);
    Regroup(whole, tail, line);
  }

  lemma ParseTail(text: string)
    ensures Parse(text) == Parse(Whole(text)) + ParseLine(Tail(text))
  {
    WholeAndTail(text);
    ParseBehind(Whole(text), Tail(text), "");
    assert Whole(text) + Tail(text) + "" == text;
    assert Tail(text) + "" == Tail(text);
  }

  /** What the first `cut` characters of a record's line read as behind an unterminated line. */
  function Spliced(tail: string, r: Record, cut: nat): seq<Record> {
    var f, head := Split(tail, '\t'), |r.tag| + |r.key| + 2;
    if cut == 0 then ParseLine(tail)
    else if |f| == 1 && head <= cut <= head + |r.val| then
      [Record(tail + r.tag, Flatten(r.key), Flatten(r.val)[..cut - head])]
    else if |f| == 2 && |r.tag| < cut < head then
      [Record(f[0], f[1] + r.tag, Flatten(r.key)[..cut - |r.tag| - 1])]
    else if |f| == 3 && cut <= |r.tag| then [Record(f[0], f[1], f[2] + r.tag[..cut])]
    else []
  }

  lemma BodyCut(r: Record, cut: nat)
    requires cut <= |Body(r)|
    ensures cut <= |r.tag| ==> Body(r)[..cut] == r.tag[..cut]
    ensures |r.tag| < cut < |r.tag| + |r.key| + 2 ==> Body(r)[..cut] == r.tag + ['\t'] + r.key[..cut - |r.tag| - 1]
    ensures |r.tag| + |r.key| + 2 <= cut ==>
              Body(r)[..cut] == Body(Record(r.tag, r.key, r.val[..cut - |r.tag| - |r.key| - 2]))
  {
  }

  /** The fields of a cut line: one, two or three, as the cut falls before, between or behind its tabs. */
  lemma CutFields(r: Record, cut: nat)
    requires FlatRecord(r) && cut <= |Body(r)|
    ensures var fields, head := Split(Body(r)[..cut], '\t'), |r.tag| + |r.key| + 2;
            fields == if cut <= |r.tag| then [r.tag[..cut]]
                      else if cut < head then [r.tag, r.key[..cut - |r.tag| - 1]]
                      else [r.tag, r.key, r.val[..cut - head]]
  {
    BodyCut(r, cut);
    if cut <= |r.tag| {
      SplitWithout(r.tag[..cut], '\t');
    } else if cut < |r.tag| + |r.key| + 2 {
      SplitField(r.tag, '\t', r.key[..cut - |r.tag| - 1]);
      SplitWithout(r.key[..cut - |r.tag| - 1], '\t');
    } else {
      var val := r.val[..cut - |r.tag| - |r.key| - 2];
      SplitField(r.tag, '\t', r.key + ['\t'] + val);
      SplitField(r.key, '\t', val);
      SplitWithout(val, '\t');
    }
  }

  lemma CutUntrimmed(tail: string, r: Record, cut: nat)
    requires FlatRecord(r) && 0 < cut <= |Body(r)|
    ensures TrimCR(tail + Body(r)[..cut]) == tail + Body(r)[..cut]
  {
    var line, body := tail + Body(r)[..cut], Body(r);
    assert line[|line| - 1] == body[cut - 1];
    assert body[cut - 1] == '\t' || body[cut - 1] in r.tag || body[cut - 1] in r.key || body[cut - 1] in r.val;
  }

  /** A cut line read behind an unterminated one. */
  lemma SplicedParses(tail: string, r: Record, cut: nat)
    requires Flat(r.tag) && cut <= |Body(Written(r))|
    ensures ParseLine(tail + Body(Written(r))[..cut]) == Spliced(tail, r, cut)
  {
    var w := Written(r);
    if cut == 0 {
      assert tail + Body(w)[..cut] == tail;
    } else {
      CutUntrimmed(tail, w, cut);
      SplitGlue(tail, '\t', Body(w)[..cut]);
      CutFields(w, cut);
      OneField(tail);
    }
  }

  lemma OneField(tail: string)
    ensures |Split(tail, '\t')| == 1 <==> '\t' !in tail
    ensures '\t' !in tail ==> Split(tail, '\t') == [tail]
  {
    if '\t' in tail {
      var i :| 0 <= i < |tail| && tail[i] == '\t';
      assert tail == tail[..i] + ['\t'] + tail[i + 1..];
      SplitConcat(tail[..i], '\t', tail[i + 1..]);
    } else {
      SplitWithout(tail, '\t');
    }
  }

  /** What the first record of an append becomes: itself in a complete file, an unknown record or nothing otherwise. */
  function Glued(text: string, r: Record): seq<Record> {
    Spliced(Tail(text), r, |Body(Written(r))|)
  }

  lemma GluedIs(text: string, r: Record)
    ensures Glued(text, r) == if '\t' in Tail(text) then []
                              else [Record(Tail(text) + r.tag, Flatten(r.key), Flatten(r.val))]
  {
    OneField(Tail(text));
    var val := Flatten(r.val);
    assert val[..|val|] == val;
    assert |Body(Written(r))| == |r.tag| + |r.key| + 2 + |val|;
  }

  lemma LineParsesAs(line: string)
    requires '\n' !in line
    ensures Parse(line + ['\n']) == ParseLine(line)
  {
    ParseWholeLine(line);
    NoNewlineParses(line);
  }

  lemma LegibleBehind(whole: string, tail: string, body: string)
    requires Complete(whole) && '\n' !in tail && '\n' !in body
    ensures Legible(whole + tail + body) <==> Legible(whole) && |tail| + |body| < LIMIT
    ensures Legible(whole + tail + (body + ['\n'])) <==> Legible(whole) && |tail| + |body| < LIMIT
  {
    var line := tail + body;
    Regroup(whole, tail, body);
    LegibleAtBoundary(whole, line);
    LegibleLine(line);
    Regroup(tail, body, ['\n']);
    Regroup(whole, tail, body + ['\n']);
    assert line + ['\n'] == line + ['\n'] + "";
    LegibleAtBoundary(whole, line + ['\n']);
    LegibleAfterLine(line, "");
    LegibleNothing();
  }

  lemma LineBehind(whole: string, tail: string, body: string)
    requires Complete(whole) && '\n' !in tail && '\n' !in body
    ensures Complete(whole + tail + (body + ['\n']))
    ensures Parse(whole + tail + (body + ['\n'])) == Parse(whole) + ParseLine(tail + body)
    ensures Legible(whole + tail + (body + ['\n'])) <==> Legible(whole) && |tail| + |body| < LIMIT
  {
    LegibleBehind(whole, tail, body);
    LineParsesAs(tail + body);
    ParseAtBoundary(whole, tail + body + ['\n']);
    Regroup(tail, body, ['\n']);
    Regroup(whole, tail, body + ['\n']);
  }

  lemma GluedLineParses(text: string, r: Record)
    requires Flat(r.tag)
    ensures Complete(text + Line(r)) && Parse(text + Line(r)) == Parse(Whole(text)) + Glued(text, r)
    ensures Legible(text + Line(r)) <==> Legible(Whole(text)) && |Tail(text)| + Width(r) < LIMIT
  {
    var body := Body(Written(r));
    BodyFlat(Written(r));
    assert body[..|body|] == body;
    SplicedParses(Tail(text), r, |body|);
    WholeAndTail(text);
    LineBehind(Whole(text), Tail(text), body);
  }

  /** The line a torn tail and the first record make, and the lines of the others, fit the reader's buffer. */
  predicate Fits(text: string, rs: seq<Record>) {
    rs == [] || (|Tail(text)| + Width(rs[0]) < LIMIT && Short(rs[1..]))
  }

  lemma LegibleTail(text: string)
    ensures Legible(text) <==> Legible(Whole(text)) && |Tail(text)| < LIMIT
  {
    WholeAndTail(text);
    LegibleBehind(Whole(text), Tail(text), "");
    assert Whole(text) + Tail(text) + "" == text;
  }

  /**
   * What an append adds to any file, torn or not. Behind an unterminated line the line's own record
   * and the first new record are lost to the line the two make together; the rest arrives. The file
   * is legible afterwards exactly when that line and the others fit.
   */
  lemma AppendParses(text: string, rs: seq<Record>)
    requires FlatTags(rs) && rs != []
    ensures Complete(text + Render(rs))
    ensures Parse(text + Render(rs)) == Parse(Whole(text)) + Glued(text, rs[0]) + AllWritten(rs[1..])
    ensures Legible(text + Render(rs)) <==> Legible(Whole(text)) && Fits(text, rs)
  {
    GluedLineParses(text, rs[0]);
    RenderParses(text + Line(rs[0]), rs[1..]);
    Regroup(text, Line(rs[0]), Render(rs[1..]));
  }

  // ----- folding the log -----

  /** The four maps, by record tag. */
  function Table(s: State, tag: string): map<string, ThreadId> {
    if tag == "M" then s.byMessage
    else if tag == "S" then s.bySubject
    else if tag == "G" then s.byGUID
    else if tag == "A" then s.aliasOf
    else map[]
  }

  predicate Known(tag: string) {
    tag in {"M", "S", "G", "A"}
  }

  /** A folded log, how many records it held (the account's position) and which compaction it descends from. */
  datatype Folded = Folded(state: State, records: nat, generation: Uint64)

  const NOTHING := Folded(EMPTY, 0, 0)

  /** One record; an unknown tag is counted and skipped. */
  function Fold(f: Folded, r: Record): Folded {
    var s := f.state;
    Folded(
      if r.tag == "M" then s.(byMessage := s.byMessage[r.key := r.val])
      else if r.tag == "S" then s.(bySubject := s.bySubject[r.key := r.val])
      else if r.tag == "G" then s.(byGUID := s.byGUID[r.key := r.val])
      else if r.tag == "A" then s.(aliasOf := s.aliasOf[r.key := r.val])
      else s,
      f.records + 1,
      if r.tag == "C" && ParseUint(r.key).Some? then ParseUint(r.key).value else f.generation)
  }

  function FoldAll(f: Folded, rs: seq<Record>): Folded
    decreases rs
  {
    if rs == [] then f else FoldAll(Fold(f, rs[0]), rs[1..])
  }

  /** What the records of a file fold to. */
  function Contents(text: string): Folded {
    FoldAll(NOTHING, Parse(text))
  }

  /** What a reader of the file gets: nothing, if a line is too long for its buffer. */
  function Load(text: string): Option<Folded> {
    if Legible(text) then Some(Contents(text)) else None
  }

  lemma {:induction false} FoldAllConcat(f: Folded, a: seq<Record>, b: seq<Record>)
    ensures FoldAll(f, a + b) == FoldAll(FoldAll(f, a), b)
    decreases a
  {
    if a == [] {
      assert a + b == b;
    } else {
      assert (a + b)[1..] == a[1..] + b;
      FoldAllConcat(Fold(f, a[0]), a[1..], b);
    }
  }

  // ----- one placement -----

  function AliasRecords(olds: seq<ThreadId>, thread: ThreadId): seq<Record> {
    if olds == [] then [] else [Record("A", olds[0], thread)] + AliasRecords(olds[1..], thread)
  }

  function OwnRecords(p: Placement): seq<Record> {
    (if p.messageID != "" then [Record("M", p.messageID, p.threadID)] else [])
    + ((if p.subjectKey != "" then [Record("S", p.subjectKey, p.threadID)] else [])
       + [Record("G", p.guid, p.threadID)])
  }

  /** What `Append` writes, aliases first: a torn tail never keeps a membership and loses its merge. */
  function RecordsOf(p: Placement): seq<Record> {
    AliasRecords(p.mergedFrom, p.threadID) + OwnRecords(p)
  }

  function FlattenAll(ids: seq<string>): (r: seq<string>)
    ensures |r| == |ids|
    ensures forall i :: 0 <= i < |ids| ==> r[i] == Flatten(ids[i])
  {
    if ids == [] then [] else [Flatten(ids[0])] + FlattenAll(ids[1..])
  }

  function FlattenPlacement(p: Placement): Placement {
    Placement(Flatten(p.guid), Flatten(p.messageID), Flatten(p.subjectKey), Flatten(p.threadID),
              FlattenAll(p.mergedFrom))
  }

  ghost predicate FlatPlacement(p: Placement) {
    && Flat(p.guid) && Flat(p.messageID) && Flat(p.subjectKey) && Flat(p.threadID)
    && forall i :: 0 <= i < |p.mergedFrom| ==> Flat(p.mergedFrom[i])
  }

  lemma FlattenPlacementFlat(p: Placement)
    requires FlatPlacement(p)
    ensures FlattenPlacement(p) == p
  {
    FlattenFlat(p.guid);
    FlattenFlat(p.messageID);
    FlattenFlat(p.subjectKey);
    FlattenFlat(p.threadID);
    forall i | 0 <= i < |p.mergedFrom|
      ensures FlattenAll(p.mergedFrom)[i] == p.mergedFrom[i]
    {
      FlattenFlat(p.mergedFrom[i]);
    }
  }

  lemma {:induction false} AllWrittenConcat(a: seq<Record>, b: seq<Record>)
    ensures AllWritten(a + b) == AllWritten(a) + AllWritten(b)
  {
    if a == [] {
      assert a + b == b;
    } else {
      assert (a + b)[1..] == a[1..] + b;
      AllWrittenConcat(a[1..], b);
    }
  }

  lemma {:induction false} WrittenAliases(olds: seq<ThreadId>, thread: ThreadId)
    ensures AllWritten(AliasRecords(olds, thread)) == AliasRecords(FlattenAll(olds), Flatten(thread))
  {
    if olds != [] { WrittenAliases(olds[1..], thread); }
  }

  lemma MergeOneMore(alias: map<ThreadId, ThreadId>, olds: seq<ThreadId>, thread: ThreadId)
    requires olds != []
    ensures Merge(alias[olds[0] := thread], olds[1..], thread) == Merge(alias, olds, thread)
  {
    assert olds == [olds[0]] + olds[1..];
  }

  lemma {:induction false} FoldAliases(f: Folded, olds: seq<ThreadId>, thread: ThreadId)
    ensures FoldAll(f, AliasRecords(olds, thread))
            == Folded(f.state.(aliasOf := Merge(f.state.aliasOf, olds, thread)), f.records + |olds|, f.generation)
    decreases olds
  {
    if olds == [] {
      assert Merge(f.state.aliasOf, [], thread) == f.state.aliasOf;
    } else {
      FoldAliases(Fold(f, Record("A", olds[0], thread)), olds[1..], thread);
      MergeOneMore(f.state.aliasOf, olds, thread);
    }
  }

  /** Folding what one `Append` wrote is applying the placement, as flattened. */
  function LineOf(tag: string, key: string, val: string): string {
    tag + "\t" + key + "\t" + val + "\n"
  }

  function AliasLines(olds: seq<ThreadId>, thread: ThreadId): string {
    if olds == [] then "" else LineOf("A", olds[0], thread) + AliasLines(olds[1..], thread)
  }

  lemma {:induction false} RenderConcat(a: seq<Record>, b: seq<Record>)
    ensures Render(a + b) == Render(a) + Render(b)
  {
    if a == [] {
      assert a + b == b;
    } else {
      assert (a + b)[1..] == a[1..] + b;
      RenderConcat(a[1..], b);
      Regroup(Line(a[0]), Render(a[1..]), Render(b));
    }
  }

  lemma FlatLine(tag: string, key: string, val: string)
    requires Flat(key) && Flat(val)
    ensures Line(Record(tag, key, val)) == LineOf(tag, key, val)
  {
    FlattenFlat(key);
    FlattenFlat(val);
  }

  lemma RenderOne(r: Record)
    ensures Render([r]) == Line(r)
  {
    assert [r][1..] == [] && Line(r) + "" == Line(r);
  }

  lemma {:induction false} AliasLinesAre(olds: seq<ThreadId>, thread: ThreadId)
    requires Flat(thread) && forall i :: 0 <= i < |olds| ==> Flat(olds[i])
    ensures Render(AliasRecords(olds, thread)) == AliasLines(olds, thread)
  {
    if olds != [] {
      AliasLinesAre(olds[1..], thread);
      FlatLine("A", olds[0], thread);
    }
  }

  /** What a placement without separators is on disk: the merges, then Message-ID, subject and identity. */
  lemma PlacementText(p: Placement)
    requires FlatPlacement(p)
    ensures Render(RecordsOf(p))
         == AliasLines(p.mergedFrom, p.threadID)
            + ((if p.messageID != "" then LineOf("M", p.messageID, p.threadID) else "")
               + ((if p.subjectKey != "" then LineOf("S", p.subjectKey, p.threadID) else "")
                  + LineOf("G", p.guid, p.threadID)))
  {
    var m := if p.messageID != "" then [Record("M", p.messageID, p.threadID)] else [];
    var k := if p.subjectKey != "" then [Record("S", p.subjectKey, p.threadID)] else [];
    var g := Record("G", p.guid, p.threadID);
    RenderConcat(AliasRecords(p.mergedFrom, p.threadID), OwnRecords(p));
    RenderConcat(m, k + [g]);
    RenderConcat(k, [g]);
    AliasLinesAre(p.mergedFrom, p.threadID);
    FlatLine("M", p.messageID, p.threadID);
    FlatLine("S", p.subjectKey, p.threadID);
    FlatLine("G", p.guid, p.threadID);
    RenderOne(g);
    if m != [] { RenderOne(m[0]); }
    if k != [] { RenderOne(k[0]); }
  }

  /** An empty file says nothing. */
  lemma NothingLoads()
    ensures Load("") == Some(Folded(State(map[], map[], map[], map[]), 0, 0))
  {
    ParseNothing();
    assert Split("", '\n') == [""];
  }

  lemma FoldPlacement(f: Folded, p: Placement)
    ensures FoldAll(f, AllWritten(RecordsOf(p)))
            == Folded(Apply(f.state, FlattenPlacement(p)), f.records + |RecordsOf(p)|, f.generation)
  {
    var own := OwnRecords(p);
    var a := AliasRecords(p.mergedFrom, p.threadID);
    AllWrittenConcat(a, own);
    WrittenAliases(p.mergedFrom, p.threadID);
    FoldAliases(f, FlattenAll(p.mergedFrom), Flatten(p.threadID));
    FoldAllConcat(f, AllWritten(a), AllWritten(own));
    AliasCount(p.mergedFrom, p.threadID);
    FoldOwn(FoldAll(f, AllWritten(a)), p);
  }

  /** What is left of a placement when its first record is lost; nothing, if that was its membership. */
  function RestOf(p: Placement): Option<Placement> {
    if p.mergedFrom != [] then Some(p.(mergedFrom := p.mergedFrom[1..]))
    else if p.messageID != "" then Some(p.(messageID := ""))
    else if p.subjectKey != "" then Some(p.(subjectKey := ""))
    else None
  }

  lemma RestRecords(p: Placement)
    ensures RecordsOf(p)[1..] == if RestOf(p).Some? then RecordsOf(RestOf(p).value) else []
  {
    if p.mergedFrom != [] {
      assert RecordsOf(p) == [Record("A", p.mergedFrom[0], p.threadID)] + RecordsOf(RestOf(p).value);
    } else {
      assert RecordsOf(p) == OwnRecords(p);
      if RestOf(p).Some? { assert RecordsOf(RestOf(p).value) == OwnRecords(RestOf(p).value); }
    }
  }

  /** Folding an append whose first record is lost. */
  lemma FoldRest(f: Folded, p: Placement)
    ensures FoldAll(f, AllWritten(RecordsOf(p)[1..]))
            == Folded(if RestOf(p).Some? then Apply(f.state, FlattenPlacement(RestOf(p).value)) else f.state,
                      f.records + |RecordsOf(p)| - 1, f.generation)
  {
    RestRecords(p);
    if RestOf(p).Some? { FoldPlacement(f, RestOf(p).value); }
  }

  lemma FoldOwn(f: Folded, p: Placement)
    ensures FoldAll(f, AllWritten(OwnRecords(p)))
            == Folded(Apply(f.state, FlattenPlacement(p)).(aliasOf := f.state.aliasOf), f.records + |OwnRecords(p)|,
                      f.generation)
  {
    var m := if p.messageID != "" then [Record("M", p.messageID, p.threadID)] else [];
    var k := if p.subjectKey != "" then [Record("S", p.subjectKey, p.threadID)] else [];
    FoldThree(f, m, k, [Record("G", p.guid, p.threadID)]);
  }

  function FoldOne(f: Folded, rs: seq<Record>): Folded {
    if rs == [] then f else Fold(f, Written(rs[0]))
  }

  lemma FoldThree(f: Folded, m: seq<Record>, k: seq<Record>, g: seq<Record>)
    requires |m| <= 1 && |k| <= 1 && |g| <= 1
    ensures FoldAll(f, AllWritten(m + (k + g))) == FoldOne(FoldOne(FoldOne(f, m), k), g)
  {
    AllWrittenConcat(m, k + g);
    AllWrittenConcat(k, g);
    FoldAllConcat(f, AllWritten(m), AllWritten(k + g));
    FoldAtMostOne(f, m);
    FoldAllConcat(FoldOne(f, m), AllWritten(k), AllWritten(g));
    FoldAtMostOne(FoldOne(f, m), k);
    FoldAtMostOne(FoldOne(FoldOne(f, m), k), g);
  }

  lemma FoldAtMostOne(f: Folded, rs: seq<Record>)
    requires |rs| <= 1
    ensures FoldAll(f, AllWritten(rs)) == FoldOne(f, rs)
  {
    if rs != [] {
      assert AllWritten(rs) == [Written(rs[0])];
      assert FoldAll(Fold(f, Written(rs[0])), []) == Fold(f, Written(rs[0]));
    }
  }

  lemma {:induction false} AliasCount(olds: seq<ThreadId>, thread: ThreadId)
    ensures |AliasRecords(olds, thread)| == |olds|
    ensures FlatTags(AliasRecords(olds, thread))
  {
    if olds != [] { AliasCount(olds[1..], thread); }
  }
}
