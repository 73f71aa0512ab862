/** What a reader makes of an append a crash cut short. */
module SidecarTorn {
  import opened Basics
  import opened Text
  import opened ThreadPlacement
  import opened SidecarLog
  import opened SidecarStore

  lemma CutLine(r: Record, cut: nat)
    requires Flat(r.tag) && cut < |Line(r)|
    ensures Line(r)[..cut] == Body(Written(r))[..cut] && '\n' !in Line(r)[..cut]
  {
    BodyFlat(Written(r));
  }

  lemma LegibleTorn(whole: string, tail: string, r: Record, cut: nat)
    requires Complete(whole) && '\n' !in tail && Flat(r.tag) && cut < |Line(r)|
    ensures Legible(whole + tail + Line(r)[..cut]) <==> Legible(whole) && |tail| + cut < LIMIT
  {
    CutLine(r, cut);
    LegibleBehind(whole, tail, Line(r)[..cut]);
  }

  /** An append cut inside its first line, behind any file. */
  lemma TornFirstLine(text: string, r: Record, cut: nat)
    requires Flat(r.tag) && cut < |Line(r)|
    ensures Parse(text + Line(r)[..cut]) == Parse(Whole(text)) + Spliced(Tail(text), r, cut)
    ensures Legible(text + Line(r)[..cut]) <==> Legible(Whole(text)) && |Tail(text)| + cut < LIMIT
  {
    WholeAndTail(text);
    LegibleTorn(Whole(text), Tail(text), r, cut);
    CutLine(r, cut);
    SplicedParses(Tail(text), r, cut);
    WholeAndTail(text);
    ParseBehind(Whole(text), Tail(text), Line(r)[..cut]);
  }

  lemma CutLaterLine(text: string, line: string, rest: string, cut: nat)
    requires |line| <= cut <= |line + rest|
    ensures text + (line + rest)[..cut] == (text + line) + rest[..cut - |line|]
  {
    assert (line + rest)[..cut] == line + rest[..cut - |line|];
  }

  /** What is left of the record the cut fell in, if it fell in one. */
  function TornAt(rs: seq<Record>, whole: nat, c: nat): seq<Record> {
    if whole < |rs| then Spliced("", rs[whole], c) else []
  }

  /** The cut falls behind `whole` whole lines, `c` characters into the next. */
  predicate CutAt(rs: seq<Record>, cut: nat, whole: nat, c: nat) {
    && whole <= |rs| && cut == |Render(rs[..whole])| + c
    && (if whole < |rs| then c < |Line(rs[whole])| else c == 0)
  }

  lemma CutAtFirst(rs: seq<Record>, cut: nat)
    requires rs != [] && cut < |Line(rs[0])|
    ensures CutAt(rs, cut, 0, cut) && Render(rs)[..cut] == Line(rs[0])[..cut]
  {
    assert rs[..0] == [];
  }

  lemma CutAtNext(rs: seq<Record>, cut: nat, whole: nat, c: nat)
    requires rs != [] && CutAt(rs[1..], cut, whole, c)
    ensures CutAt(rs, |Line(rs[0])| + cut, whole + 1, c)
  {
    assert rs[..whole + 1][1..] == rs[1..][..whole];
    assert Render(rs[..whole + 1]) == Line(rs[0]) + Render(rs[1..][..whole]);
  }

  lemma TornAtNext(rs: seq<Record>, whole: nat, c: nat)
    requires rs != []
    ensures TornAt(rs[1..], whole, c) == TornAt(rs, whole + 1, c)
  {
  }

  /** What a reader finds, and whether every line fits its buffer. */
  datatype Reading = Reading(records: seq<Record>, legible: bool)

  function ReadOf(text: string): Reading {
    Reading(Parse(text), Legible(text))
  }

  /** The same file with whole records behind it, and what is left of one more. */
  function Torn(before: Reading, rs: seq<Record>, whole: nat, c: nat): Reading
    requires whole <= |rs|
  {
    Reading((before.records + AllWritten(rs[..whole])) + TornAt(rs, whole, c),
            before.legible && Short(rs[..whole]) && c < LIMIT)
  }

  lemma TornNothing(text: string, rs: seq<Record>, cut: nat, file: string)
    requires rs == [] && cut <= |Render(rs)| && file == text + Render(rs)[..cut]
    ensures CutAt(rs, cut, 0, 0) && ReadOf(file) == Torn(ReadOf(text), rs, 0, 0)
  {
    assert file == text;
    assert Short(rs[..0]) && AllWritten(rs[..0]) == [] && Parse(text) + [] == Parse(text);
  }

  lemma TornFirst(text: string, rs: seq<Record>, cut: nat, file: string)
    requires Complete(text) && FlatTags(rs) && rs != [] && cut < |Line(rs[0])| && cut <= |Render(rs)|
    requires file == text + Render(rs)[..cut]
    ensures CutAt(rs, cut, 0, cut) && ReadOf(file) == Torn(ReadOf(text), rs, 0, cut)
  {
    CutAtFirst(rs, cut);
    TornFirstLine(text, rs[0], cut);
    assert Tail(text) == "" && Whole(text) == text;
    assert AllWritten(rs[..0]) == [] && Parse(text) + [] == Parse(text);
    assert Short(rs[..0]);
  }

  lemma TornNext(text: string, rs: seq<Record>, w: nat, c: nat)
    requires Complete(text) && FlatTags(rs) && rs != [] && w < |rs|
    ensures Torn(ReadOf(text + Line(rs[0])), rs[1..], w, c) == Torn(ReadOf(text), rs, w + 1, c)
  {
    AppendedLineParses(text, rs[0]);
    TornAtNext(rs, w, c);
    WholePrefix(Parse(text), rs, w);
    LegibleAtBoundary(text, Line(rs[0]));
    LegibleRecord(rs[0]);
    ShortPrefix(rs, w);
  }

  lemma CutRendered(text: string, rs: seq<Record>, cut: nat)
    requires rs != [] && |Line(rs[0])| <= cut <= |Render(rs)|
    ensures cut - |Line(rs[0])| <= |Render(rs[1..])|
    ensures text + Render(rs)[..cut] == (text + Line(rs[0])) + Render(rs[1..])[..cut - |Line(rs[0])|]
  {
    CutLaterLine(text, Line(rs[0]), Render(rs[1..]), cut);
  }

  /** In a complete file: whole records, and at most one torn one. */
  lemma {:induction false} TornCompleteParses(text: string, rs: seq<Record>, cut: nat, file: string)
    returns (whole: nat, c: nat)
    requires Complete(text) && FlatTags(rs) && cut <= |Render(rs)| && file == text + Render(rs)[..cut]
    ensures CutAt(rs, cut, whole, c) && ReadOf(file) == Torn(ReadOf(text), rs, whole, c)
    decreases rs
  {
    if rs == [] {
      whole, c := 0, 0;
      TornNothing(text, rs, cut, file);
    } else if cut < |Line(rs[0])| {
      whole, c := 0, cut;
      TornFirst(text, rs, cut, file);
    } else {
      var w;
      w, c := TornLaterLine(text, rs, cut, text + Line(rs[0]), file);
      TornNext(text, rs, w, c);
      whole := w + 1;
    }
  }

  /** Behind the first line, whatever that made of the file. */
  lemma {:induction false} TornLaterLine(text: string, rs: seq<Record>, cut: nat, longer: string, file: string)
    returns (w: nat, c: nat)
    requires FlatTags(rs) && rs != [] && |Line(rs[0])| <= cut <= |Render(rs)|
    requires longer == text + Line(rs[0]) && file == text + Render(rs)[..cut]
    ensures CutAt(rs, cut, w + 1, c) && ReadOf(file) == Torn(ReadOf(longer), rs[1..], w, c)
    decreases rs, 0
  {
    var rest := cut - |Line(rs[0])|;
    CutRendered(text, rs, cut);
    LineCompletes(text, rs[0]);
    w, c := TornCompleteParses(longer, rs[1..], rest, file);
    CutAtNext(rs, rest, w, c);
  }

  lemma LineCompletes(text: string, r: Record)
    ensures Complete(text + Line(r))
  {
  }

  lemma ShortPrefix(rs: seq<Record>, whole: nat)
    requires rs != [] && whole < |rs|
    ensures Short(rs[..whole + 1]) <==> Width(rs[0]) < LIMIT && Short(rs[1..][..whole])
  {
    ShortParts(rs[..whole + 1]);
    assert rs[..whole + 1][1..] == rs[1..][..whole];
  }

  /** What any cut of an append leaves, behind any file. */
  function TornFile(text: string, rs: seq<Record>, whole: nat, c: nat): seq<Record>
    requires rs != [] && whole <= |rs|
  {
    if whole == 0 then Parse(Whole(text)) + Spliced(Tail(text), rs[0], c)
    else ((Parse(Whole(text)) + Glued(text, rs[0])) + AllWritten(rs[1..whole])) + TornAt(rs, whole, c)
  }

  /** Every line it leaves behind the whole ones fits the reader's buffer. */
  predicate TornFits(text: string, rs: seq<Record>, whole: nat, c: nat)
    requires rs != [] && whole <= |rs|
  {
    if whole == 0 then |Tail(text)| + c < LIMIT
    else |Tail(text)| + Width(rs[0]) < LIMIT && Short(rs[1..whole]) && c < LIMIT
  }

  /**
   * Any cut of an append, behind a file that may itself end in a torn line: the whole lines of the
   * file, what the torn line and the first new line make together, the whole lines behind it and
   * what is left of the one the cut fell in.
   */
  lemma TornAppendParses(text: string, rs: seq<Record>, cut: nat) returns (whole: nat, c: nat)
    requires FlatTags(rs) && rs != [] && cut <= |Render(rs)|
    ensures CutAt(rs, cut, whole, c)
    ensures Parse(text + Render(rs)[..cut]) == TornFile(text, rs, whole, c)
    ensures Legible(text + Render(rs)[..cut]) <==> Legible(Whole(text)) && TornFits(text, rs, whole, c)
  {
    if cut < |Line(rs[0])| {
      whole, c := 0, cut;
      CutAtFirst(rs, cut);
      TornFirstLine(text, rs[0], cut);
    } else {
      GluedLineParses(text, rs[0]);
      whole, c := TornBehindFirst(text, rs, cut, Parse(Whole(text)) + Glued(text, rs[0]));
    }
  }

  lemma TornBehindFirst(text: string, rs: seq<Record>, cut: nat, found: seq<Record>) returns (whole: nat, c: nat)
    requires FlatTags(rs) && rs != [] && |Line(rs[0])| <= cut <= |Render(rs)|
    requires Parse(text + Line(rs[0])) == found
    ensures CutAt(rs, cut, whole, c) && whole > 0
    ensures Parse(text + Render(rs)[..cut]) == (found + AllWritten(rs[1..whole])) + TornAt(rs, whole, c)
    ensures Legible(text + Render(rs)[..cut]) <==> Legible(text + Line(rs[0])) && Short(rs[1..whole]) && c < LIMIT
  {
    var w;
    w, c := TornLaterLine(text, rs, cut, text + Line(rs[0]), text + Render(rs)[..cut]);
    whole := w + 1;
    TornSlice(ReadOf(text + Line(rs[0])), rs, w, c);
    var after := ReadOf(text + Render(rs)[..cut]);
    assert after.records == (found + AllWritten(rs[1..whole])) + TornAt(rs, whole, c);
  }

  lemma TornSlice(before: Reading, rs: seq<Record>, w: nat, c: nat)
    requires rs != [] && w < |rs|
    ensures Torn(before, rs[1..], w, c)
         == Reading((before.records + AllWritten(rs[1..w + 1])) + TornAt(rs, w + 1, c),
                    before.legible && Short(rs[1..w + 1]) && c < LIMIT)
  {
    assert rs[1..][..w] == rs[1..w + 1];
    TornAtNext(rs, w, c);
  }

  lemma WholePrefix(found: seq<Record>, rs: seq<Record>, whole: nat)
    requires rs != [] && whole < |rs|
    ensures (found + [Written(rs[0])]) + AllWritten(rs[1..][..whole]) == found + AllWritten(rs[..whole + 1])
  {
    assert rs[..whole + 1][1..] == rs[1..][..whole];
    assert AllWritten(rs[..whole + 1]) == [Written(rs[0])] + AllWritten(rs[1..][..whole]);
  }

  lemma {:induction false} AllWrittenAt(rs: seq<Record>, i: nat)
    requires i < |rs|
    ensures |AllWritten(rs)| == |rs| && AllWritten(rs)[i] == Written(rs[i])
  {
    if i > 0 { AllWrittenAt(rs[1..], i - 1); } else if |rs| > 1 { AllWrittenAt(rs[1..], 0); }
  }

  lemma {:induction false} AliasTags(olds: seq<ThreadId>, thread: ThreadId, i: nat)
    requires i < |olds|
    ensures |AliasRecords(olds, thread)| == |olds| && AliasRecords(olds, thread)[i] == Record("A", olds[i], thread)
  {
    AliasCount(olds, thread);
    if i > 0 { AliasTags(olds[1..], thread, i - 1); }
  }

  function MergeRecord(p: Placement, merge: ThreadId): Record {
    Record("A", Flatten(merge), Flatten(p.threadID))
  }

  lemma TornTag(rs: seq<Record>, whole: nat, c: nat, r: Record)
    requires whole < |rs| && r in TornAt(rs, whole, c)
    ensures r.tag == rs[whole].tag
  {
    assert Split("", '\t') == [""];
    assert "" + rs[whole].tag == rs[whole].tag;
    assert ParseLine("") == [];
  }

  /** The order within an append: a surviving membership implies every merge of its placement survived. */
  lemma TornAppendKeepsMerges(text: string, p: Placement, cut: nat)
    requires Complete(text) && cut <= |Render(RecordsOf(p))|
    ensures var found := Parse(text + Render(RecordsOf(p))[..cut]);
            && Parse(text) <= found
            && ((exists r :: r in found[|Parse(text)|..] && r.tag == "G") ==>
                  forall merge :: merge in p.mergedFrom ==> MergeRecord(p, merge) in found)
  {
    var rs := RecordsOf(p);
    RecordsOfTags(p);
    AliasCount(p.mergedFrom, p.threadID);
    var whole, c := TornCompleteParses(text, rs, cut, text + Render(rs)[..cut]);
    var before, kept, torn := Parse(text), AllWritten(rs[..whole]), TornAt(rs, whole, c);
    var found := Parse(text + Render(rs)[..cut]);
    Regroup(before, kept, torn);
    assert found[|before|..] == kept + torn;
    if r: Record :| r in kept + torn && r.tag == "G" {
      if whole < |p.mergedFrom| { AliasPrefixTags(p, whole, c, r); }
      forall merge | merge in p.mergedFrom
        ensures MergeRecord(p, merge) in found
      {
        SurvivingMerge(p, whole, merge);
      }
    }
  }

  lemma SurvivingMerge(p: Placement, whole: nat, merge: ThreadId)
    requires |p.mergedFrom| <= whole <= |RecordsOf(p)| && merge in p.mergedFrom
    ensures MergeRecord(p, merge) in AllWritten(RecordsOf(p)[..whole])
  {
    var i :| 0 <= i < |p.mergedFrom| && p.mergedFrom[i] == merge;
    AliasTags(p.mergedFrom, p.threadID, i);
    AllWrittenAt(RecordsOf(p)[..whole], i);
  }

  lemma AliasPrefixTags(p: Placement, whole: nat, c: nat, r: Record)
    requires whole < |p.mergedFrom| && whole < |RecordsOf(p)|
    requires r in AllWritten(RecordsOf(p)[..whole]) + TornAt(RecordsOf(p), whole, c)
    ensures r.tag == "A"
  {
    var rs := RecordsOf(p);
    AliasTags(p.mergedFrom, p.threadID, whole);
    if r in AllWritten(rs[..whole]) {
      if whole > 0 { AllWrittenAt(rs[..whole], 0); }
      var i :| 0 <= i < |AllWritten(rs[..whole])| && AllWritten(rs[..whole])[i] == r;
      AllWrittenAt(rs[..whole], i);
      AliasTags(p.mergedFrom, p.threadID, i);
      assert r == Written(rs[i]) && rs[i].tag == "A";
    } else {
      TornTag(rs, whole, c, r);
    }
  }

  // ----- merges behind a torn line -----

  lemma {:induction false} RenderGrows(rs: seq<Record>, a: nat, b: nat)
    requires a <= b <= |rs|
    ensures |Render(rs[..a])| <= |Render(rs[..b])|
    ensures a < b ==> |Render(rs[..a])| + |Line(rs[a])| <= |Render(rs[..b])|
  {
    if a > 0 {
      assert rs[..a][1..] == rs[1..][..a - 1] && rs[..b][1..] == rs[1..][..b - 1];
      RenderGrows(rs[1..], a - 1, b - 1);
    } else if b > 0 {
      assert rs[..b][0] == rs[0];
    }
  }

  /** The cut falls behind the second tab of the membership record, the last one written. */
  predicate ShowsMembership(p: Placement, cut: nat) {
    var rs := RecordsOf(p);
    |Render(rs[..|rs| - 1])| + |p.guid| + 3 <= cut <= |Render(rs)|
  }

  lemma ShownIsLast(p: Placement, cut: nat, whole: nat, c: nat)
    requires ShowsMembership(p, cut) && CutAt(RecordsOf(p), cut, whole, c)
    ensures whole >= |RecordsOf(p)| - 1 >= |p.mergedFrom|
  {
    var rs := RecordsOf(p);
    AliasCount(p.mergedFrom, p.threadID);
    if whole < |rs| - 1 {
      RenderGrows(rs, whole, |rs| - 1);
    }
  }

  /** The records an append cut there adds behind the whole lines of the file. */
  function Added(text: string, p: Placement, cut: nat): seq<Record>
    requires cut <= |Render(RecordsOf(p))|
  {
    var found, before := Parse(text + Render(RecordsOf(p))[..cut]), |Parse(Whole(text))|;
    if before <= |found| then found[before..] else []
  }

  lemma MembershipIsLast(p: Placement, i: nat)
    requires i < |RecordsOf(p)|
    ensures RecordsOf(p)[|RecordsOf(p)| - 1] == Record("G", p.guid, p.threadID)
    ensures RecordsOf(p)[i].tag == "G" <==> i == |RecordsOf(p)| - 1
  {
    AliasCount(p.mergedFrom, p.threadID);
    if i < |p.mergedFrom| {
      AliasTags(p.mergedFrom, p.threadID, i);
    } else {
      assert RecordsOf(p)[i] == OwnRecords(p)[i - |p.mergedFrom|];
    }
  }

  lemma TornMembership(p: Placement, c: nat)
    requires c < |Line(Record("G", p.guid, p.threadID))|
    ensures var torn := Spliced("", Record("G", p.guid, p.threadID), c);
            if c >= |p.guid| + 3 then |torn| == 1 && torn[0].tag == "G" else torn == []
  {
    assert Split("", '\t') == [""];
    assert ParseLine("") == [];
    assert "" + "G" == "G";
  }

  lemma NoneWrittenG(rs: seq<Record>, r: Record)
    requires (forall i :: 0 <= i < |rs| ==> rs[i].tag != "G") && r in AllWritten(rs)
    ensures r.tag != "G"
  {
    AllWrittenCount(rs);
    var i :| 0 <= i < |AllWritten(rs)| && AllWritten(rs)[i] == r;
    AllWrittenAt(rs, i);
  }

  lemma EarlierCutShowsNone(p: Placement, whole: nat, c: nat, r: Record)
    requires whole < |RecordsOf(p)| - 1
    requires r in AllWritten(RecordsOf(p)[..whole]) + TornAt(RecordsOf(p), whole, c)
    ensures r.tag != "G"
  {
    var rs := RecordsOf(p);
    forall i | 0 <= i <= whole ensures rs[i].tag != "G" { MembershipIsLast(p, i); }
    if r in AllWritten(rs[..whole]) {
      NoneWrittenG(rs[..whole], r);
    } else {
      TornTag(rs, whole, c, r);
    }
  }

  lemma WholeCutShows(p: Placement)
    ensures exists r :: r in AllWritten(RecordsOf(p)) && r.tag == "G"
  {
    var rs := RecordsOf(p);
    MembershipIsLast(p, |rs| - 1);
    AllWrittenAt(rs, |rs| - 1);
    assert AllWritten(rs)[|rs| - 1] in AllWritten(rs);
  }

  ghost predicate HasMembership(found: seq<Record>) {
    exists r :: r in found && r.tag == "G"
  }

  lemma LastLineCut(p: Placement, c: nat)
    requires c < |Line(Record("G", p.guid, p.threadID))|
    ensures var rs := RecordsOf(p);
            var n := |rs| - 1;
            HasMembership(AllWritten(rs[..n]) + TornAt(rs, n, c)) <==> c >= |p.guid| + 3
  {
    var rs := RecordsOf(p);
    var n := |rs| - 1;
    MembershipIsLast(p, n);
    TornMembership(p, c);
    forall r | r in AllWritten(rs[..n])
      ensures r.tag != "G"
    {
      forall i | 0 <= i < n ensures rs[..n][i].tag != "G" { MembershipIsLast(p, i); }
      NoneWrittenG(rs[..n], r);
    }
    if c >= |p.guid| + 3 { assert TornAt(rs, n, c)[0] in AllWritten(rs[..n]) + TornAt(rs, n, c); }
  }

  lemma ShownByCut(p: Placement, cut: nat, whole: nat, c: nat)
    requires cut <= |Render(RecordsOf(p))| && CutAt(RecordsOf(p), cut, whole, c)
    ensures ShowsMembership(p, cut)
       <==> HasMembership(AllWritten(RecordsOf(p)[..whole]) + TornAt(RecordsOf(p), whole, c))
  {
    var rs := RecordsOf(p);
    var n := |rs| - 1;
    MembershipIsLast(p, n);
    if whole < n {
      if ShowsMembership(p, cut) { ShownIsLast(p, cut, whole, c); }
      forall r | r in AllWritten(rs[..whole]) + TornAt(rs, whole, c) ensures r.tag != "G" {
        EarlierCutShowsNone(p, whole, c, r);
      }
    } else if whole == n {
      LastLineCut(p, c);
    } else {
      RenderGrows(rs, n, |rs|);
      assert rs[..|rs|] == rs && AllWritten(rs) + [] == AllWritten(rs);
      WholeCutShows(p);
    }
  }

  lemma AddedWhenComplete(text: string, p: Placement, cut: nat) returns (whole: nat, c: nat)
    requires Complete(text) && cut <= |Render(RecordsOf(p))|
    ensures CutAt(RecordsOf(p), cut, whole, c)
    ensures Added(text, p, cut) == AllWritten(RecordsOf(p)[..whole]) + TornAt(RecordsOf(p), whole, c)
  {
    var rs := RecordsOf(p);
    RecordsOfTags(p);
    whole, c := TornCompleteParses(text, rs, cut, text + Render(rs)[..cut]);
    Regroup(Parse(text), AllWritten(rs[..whole]), TornAt(rs, whole, c));
    assert Whole(text) == text;
    var found := ReadOf(text + Render(rs)[..cut]).records;
    assert found == Parse(text) + (AllWritten(rs[..whole]) + TornAt(rs, whole, c));
  }

  /** Those are exactly the cuts at which a reader of a file complete before finds the membership. */
  lemma MembershipShownIff(text: string, p: Placement, cut: nat)
    requires Complete(text) && cut <= |Render(RecordsOf(p))|
    ensures ShowsMembership(p, cut) <==> HasMembership(Added(text, p, cut))
  {
    var whole, c := AddedWhenComplete(text, p, cut);
    ShownByCut(p, cut, whole, c);
  }

  /** Behind the first line, which may be glued: whole records, and what is left of the last. */
  lemma AddedIs(text: string, p: Placement, cut: nat) returns (whole: nat, c: nat)
    requires ShowsMembership(p, cut) && p.mergedFrom != []
    ensures |p.mergedFrom| <= whole <= |RecordsOf(p)|
    ensures Added(text, p, cut)
         == Glued(text, RecordsOf(p)[0]) + AllWritten(RecordsOf(p)[1..whole]) + TornAt(RecordsOf(p), whole, c)
  {
    var rs, before := RecordsOf(p), Parse(Whole(text));
    RecordsOfTags(p);
    whole, c := TornAppendParses(text, rs, cut);
    ShownIsLast(p, cut, whole, c);
    Regroup(before, Glued(text, rs[0]), AllWritten(rs[1..whole]));
    Regroup(before, Glued(text, rs[0]) + AllWritten(rs[1..whole]), TornAt(rs, whole, c));
  }

  lemma AllWrittenCount(rs: seq<Record>)
    ensures |AllWritten(rs)| == |rs|
  {
    if rs != [] { AllWrittenAt(rs, 0); }
  }

  lemma LaterMerge(p: Placement, whole: nat, i: nat)
    requires i + 1 < |p.mergedFrom| <= whole <= |RecordsOf(p)|
    ensures MergeRecord(p, p.mergedFrom[i + 1]) in AllWritten(RecordsOf(p)[1..whole])
  {
    var rest := RecordsOf(p)[1..whole];
    AliasTags(p.mergedFrom, p.threadID, i + 1);
    AllWrittenAt(rest, i);
    assert rest[i] == RecordsOf(p)[i + 1];
    assert AllWritten(rest)[i] == MergeRecord(p, p.mergedFrom[i + 1]);
  }

  lemma MergeIsLater(p: Placement, whole: nat, merge: ThreadId)
    requires 0 < |p.mergedFrom| <= whole <= |RecordsOf(p)|
    requires MergeRecord(p, merge) in AllWritten(RecordsOf(p)[1..whole])
    ensures Flatten(merge) in FlattenAll(p.mergedFrom[1..])
  {
    var rest, olds := RecordsOf(p)[1..whole], p.mergedFrom;
    AllWrittenCount(rest);
    var i :| 0 <= i < |rest| && AllWritten(rest)[i] == MergeRecord(p, merge);
    AllWrittenAt(rest, i);
    AliasCount(olds, p.threadID);
    if i + 1 < |olds| {
      AliasTags(olds, p.threadID, i + 1);
      assert FlattenAll(olds[1..])[i] == Flatten(merge);
    } else {
      OwnTags(p, i + 1);
    }
  }

  lemma LaterMerges(p: Placement, whole: nat, merge: ThreadId)
    requires 0 < |p.mergedFrom| <= whole <= |RecordsOf(p)|
    ensures MergeRecord(p, merge) in AllWritten(RecordsOf(p)[1..whole])
       <==> Flatten(merge) in FlattenAll(p.mergedFrom[1..])
  {
    var olds := p.mergedFrom;
    if Flatten(merge) in FlattenAll(olds[1..]) {
      var i :| 0 <= i < |olds[1..]| && FlattenAll(olds[1..])[i] == Flatten(merge);
      LaterMerge(p, whole, i);
    }
    if MergeRecord(p, merge) in AllWritten(RecordsOf(p)[1..whole]) {
      MergeIsLater(p, whole, merge);
    }
  }

  lemma OwnTags(p: Placement, i: nat)
    requires |p.mergedFrom| <= i < |RecordsOf(p)|
    ensures RecordsOf(p)[i].tag != "A"
  {
    AliasCount(p.mergedFrom, p.threadID);
    assert RecordsOf(p)[i] == OwnRecords(p)[i - |p.mergedFrom|];
  }

  lemma GluedMerge(text: string, p: Placement, merge: ThreadId)
    requires p.mergedFrom != []
    ensures MergeRecord(p, merge) in Glued(text, RecordsOf(p)[0])
       <==> (Complete(text) && Flatten(merge) == Flatten(p.mergedFrom[0]))
  {
    AliasTags(p.mergedFrom, p.threadID, 0);
    assert RecordsOf(p)[0] == Record("A", p.mergedFrom[0], p.threadID);
    GluedIs(text, RecordsOf(p)[0]);
    WholeAndTail(text);
    if Complete(text) {
      assert "" + "A" == "A";
    } else {
      assert |Tail(text) + "A"| >= 2;
    }
  }

  lemma MergeAddedIff(text: string, p: Placement, cut: nat, merge: ThreadId)
    requires ShowsMembership(p, cut) && p.mergedFrom != []
    ensures MergeRecord(p, merge) in Added(text, p, cut) <==>
            || (Complete(text) && Flatten(merge) == Flatten(p.mergedFrom[0]))
            || Flatten(merge) in FlattenAll(p.mergedFrom[1..])
  {
    var whole, c := AddedIs(text, p, cut);
    GluedMerge(text, p, merge);
    LaterMerges(p, whole, merge);
    if MergeRecord(p, merge) in TornAt(RecordsOf(p), whole, c) {
      TornTag(RecordsOf(p), whole, c, MergeRecord(p, merge));
      OwnTags(p, whole);
    }
  }

  /**
   * At every cut that shows the membership, every merge of the placement is shown too, if and only
   * if none is lost to a torn line in front of the append.
   */
  lemma MembershipShowsMergesIff(text: string, p: Placement, cut: nat)
    requires ShowsMembership(p, cut)
    ensures (forall merge :: merge in p.mergedFrom ==> MergeRecord(p, merge) in Added(text, p, cut))
       <==> (Complete(text) || p.mergedFrom == [] || Flatten(p.mergedFrom[0]) in FlattenAll(p.mergedFrom[1..]))
  {
    var olds := p.mergedFrom;
    if olds != [] {
      forall merge | merge in olds
        ensures MergeRecord(p, merge) in Added(text, p, cut) <==>
                (Complete(text) && Flatten(merge) == Flatten(olds[0])) || Flatten(merge) in FlattenAll(olds[1..])
      {
        MergeAddedIff(text, p, cut, merge);
      }
      forall merge | merge in olds && merge != olds[0]
        ensures Flatten(merge) in FlattenAll(olds[1..])
      {
        var i :| 0 <= i < |olds| && olds[i] == merge;
        assert FlattenAll(olds[1..])[i - 1] == Flatten(olds[1..][i - 1]);
      }
      assert olds[0] in olds;
    }
  }

  /** A cut inside the value is not noticed: the merged thread is sent to a thread nobody has. */
  lemma TornMergeIsMisread()
    ensures var p := Placement("g3", "", "", "t1", ["t2"]);
            && Load(Render(RecordsOf(p))[..6]).Some?
            && Load(Render(RecordsOf(p))[..6]).value.state.aliasOf == map["t2" := "t"]
  {
    var p := Placement("g3", "", "", "t1", ["t2"]);
    var r := Record("A", "t2", "t1");
    FlattenFlat("t2");
    FlattenFlat("t1");
    assert Written(r) == r;
    AliasTags(p.mergedFrom, p.threadID, 0);
    assert RecordsOf(p)[0] == r;
    assert |Line(r)| == 8;
    ParseNothing();
    LegibleNothing();
    CutAtFirst(RecordsOf(p), 6);
    TornFirstLine("", r, 6);
    assert "" + Render(RecordsOf(p))[..6] == Render(RecordsOf(p))[..6];
    var found := Record("A", "t2", "t");
    assert Split("", '\t') == [""] && "" + "A" == "A";
    assert Spliced("", r, 6) == [found];
    assert Parse(Render(RecordsOf(p))[..6]) == [found];
    assert FoldAll(NOTHING, [found]) == FoldAll(Fold(NOTHING, found), []);
  }
}
