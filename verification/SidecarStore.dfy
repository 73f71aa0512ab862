/** The live sidecar: a state in memory and the log it was folded from, kept in step. */
module SidecarStore {
  import opened Basics
  import opened Numbers
  import opened Order
  import opened Text
  import opened ThreadPlacement
  import opened SidecarLog

  // ----- appending -----

  ghost predicate FlatTable(m: map<string, ThreadId>) {
    forall k :: k in m ==> Flat(k) && Flat(m[k])
  }

  ghost predicate FlatState(s: State) {
    FlatTable(s.byMessage) && FlatTable(s.bySubject) && FlatTable(s.byGUID) && FlatTable(s.aliasOf)
  }

  /** No key and no value holds a separator or a carriage return: what every writer keeps. */
  ghost predicate FlatRecords(rs: seq<Record>) {
    forall i :: 0 <= i < |rs| ==> Flat(rs[i].key) && Flat(rs[i].val)
  }

  lemma {:induction false} FoldAllFlat(f: Folded, rs: seq<Record>)
    requires FlatState(f.state) && FlatRecords(rs)
    ensures FlatState(FoldAll(f, rs).state)
    decreases rs
  {
    if rs != [] {
      assert Flat(rs[0].key) && Flat(rs[0].val);
      FoldAllFlat(Fold(f, rs[0]), rs[1..]);
    }
  }

  lemma {:induction false} AllWrittenFlat(rs: seq<Record>)
    ensures FlatRecords(AllWritten(rs))
  {
    if rs != [] { AllWrittenFlat(rs[1..]); }
  }

  lemma RecordsOfTags(p: Placement)
    ensures FlatTags(RecordsOf(p))
  {
    AliasCount(p.mergedFrom, p.threadID);
  }

  lemma ContentsConcat(a: string, b: string, more: seq<Record>)
    requires Parse(b) == Parse(a) + more
    ensures Contents(b) == FoldAll(Contents(a), more)
  {
    FoldAllConcat(NOTHING, Parse(a), more);
  }

  /** What a reader finds after one placement is appended to a complete file. */
  lemma ContentsAfterAppend(text: string, p: Placement)
    requires Complete(text)
    ensures Contents(text + Render(RecordsOf(p)))
            == Folded(Apply(Contents(text).state, FlattenPlacement(p)),
                      Contents(text).records + |RecordsOf(p)|, Contents(text).generation)
  {
    RecordsOfTags(p);
    RenderParses(text, RecordsOf(p));
    ContentsConcat(text, text + Render(RecordsOf(p)), AllWritten(RecordsOf(p)));
    FoldPlacement(Contents(text), p);
  }

  /** A record no fold knows is counted and nothing else. */
  lemma FoldUnknown(f: Folded, r: Record)
    requires |r.tag| != 1
    ensures FoldAll(f, [r]) == f.(records := f.records + 1)
  {
    assert FoldAll(Fold(f, r), []) == Fold(f, r);
  }

  lemma FoldGlued(f: Folded, text: string, p: Placement)
    requires !Complete(text)
    ensures FoldAll(f, Glued(text, RecordsOf(p)[0]))
            == f.(records := f.records + if '\t' in Tail(text) then 0 else 1)
  {
    var r := RecordsOf(p)[0];
    WholeAndTail(text);
    GluedIs(text, r);
    OneLetterTags(p);
    if '\t' !in Tail(text) {
      FoldUnknown(f, Record(Tail(text) + r.tag, Flatten(r.key), Flatten(r.val)));
    }
  }

  lemma OneLetterTags(p: Placement)
    ensures |RecordsOf(p)[0].tag| == 1
  {
    if p.mergedFrom != [] {
      assert RecordsOf(p)[0] == Record("A", p.mergedFrom[0], p.threadID);
    } else {
      assert RecordsOf(p) == OwnRecords(p);
    }
  }

  lemma AppendFolds(text: string, p: Placement)
    ensures Contents(text + Render(RecordsOf(p)))
         == FoldAll(FoldAll(Contents(Whole(text)), Glued(text, RecordsOf(p)[0])), AllWritten(RecordsOf(p)[1..]))
  {
    var rs := RecordsOf(p);
    var first, rest := Glued(text, rs[0]), AllWritten(rs[1..]);
    RecordsOfTags(p);
    AppendParses(text, rs);
    Regroup(Parse(Whole(text)), first, rest);
    ContentsConcat(Whole(text), text + Render(rs), first + rest);
    FoldAllConcat(Contents(Whole(text)), first, rest);
  }

  /**
   * The whole lines of a file, and a placement less its first record, with or without a record made of
   * the two torn ones.
   */
  function AfterTorn(w: Folded, text: string, p: Placement): Folded {
    Folded(if RestOf(p).Some? then Apply(w.state, FlattenPlacement(RestOf(p).value)) else w.state,
           w.records + (if '\t' in Tail(text) then 0 else 1) + |RecordsOf(p)| - 1, w.generation)
  }

  /**
   * What the records come to after one placement is appended behind an unterminated line: of the old
   * file its whole lines, and of the placement all but its first record.
   */
  lemma ContentsAfterTornAppend(text: string, p: Placement)
    requires !Complete(text)
    ensures Contents(text + Render(RecordsOf(p))) == AfterTorn(Contents(Whole(text)), text, p)
  {
    var w := Contents(Whole(text));
    AppendFolds(text, p);
    FoldGlued(w, text, p);
    FoldRest(FoldAll(w, Glued(text, RecordsOf(p)[0])), p);
  }

  lemma FlatConcat(a: seq<Record>, b: seq<Record>)
    requires FlatRecords(a) && FlatRecords(b)
    ensures FlatRecords(a + b)
  {
  }

  lemma FlatFront(a: seq<Record>, b: seq<Record>)
    requires FlatRecords(a + b)
    ensures FlatRecords(a)
  {
    forall i | 0 <= i < |a|
      ensures Flat(a[i].key) && Flat(a[i].val)
    {
      assert a[i] == (a + b)[i];
    }
  }

  /** Every append keeps the file's fields free of separators, torn or not. */
  lemma AppendedFileFlat(text: string, p: Placement)
    requires FlatRecords(Parse(text))
    ensures FlatRecords(Parse(text + Render(RecordsOf(p))))
    ensures FlatState(Contents(text + Render(RecordsOf(p))).state)
  {
    var rs := RecordsOf(p);
    RecordsOfTags(p);
    ParseTail(text);
    FlatFront(Parse(Whole(text)), ParseLine(Tail(text)));
    AppendParses(text, rs);
    GluedIs(text, rs[0]);
    AllWrittenFlat(rs[1..]);
    FlatConcat(Parse(Whole(text)), Glued(text, rs[0]));
    FlatConcat(Parse(Whole(text)) + Glued(text, rs[0]), AllWritten(rs[1..]));
    FoldAllFlat(NOTHING, Parse(text + Render(rs)));
  }

  lemma FlatAppliedPlacement(s: State, p: Placement)
    requires FlatState(Apply(s, p))
    ensures FlatPlacement(p)
  {
    var t := Apply(s, p);
    assert p.guid in t.byGUID;
    assert p.messageID != "" ==> p.messageID in t.byMessage;
    assert p.subjectKey != "" ==> p.subjectKey in t.bySubject;
    assert forall i :: 0 <= i < |p.mergedFrom| ==> p.mergedFrom[i] in t.aliasOf;
  }

  /** The state already has what the placement's first record says, or a later record says it again. */
  predicate FirstKnown(s: State, p: Placement) {
    if p.mergedFrom != [] then
      var gone := p.mergedFrom[0];
      gone in p.mergedFrom[1..] || (gone in s.aliasOf && s.aliasOf[gone] == p.threadID)
    else if p.messageID != "" then p.messageID in s.byMessage && s.byMessage[p.messageID] == p.threadID
    else if p.subjectKey != "" then p.subjectKey in s.bySubject && s.bySubject[p.subjectKey] == p.threadID
    else p.guid in s.byGUID && s.byGUID[p.guid] == p.threadID
  }

  lemma SameMap(a: map<ThreadId, ThreadId>, b: map<ThreadId, ThreadId>)
    requires forall id :: (id in a <==> id in b) && (id in a ==> a[id] == b[id])
    ensures a == b
  {
  }

  lemma MergeTail(alias: map<ThreadId, ThreadId>, olds: seq<ThreadId>, thread: ThreadId)
    requires olds != []
    ensures Merge(alias, olds[1..], thread) == Merge(alias, olds, thread)
       <==> (olds[0] in olds[1..] || (olds[0] in alias && alias[olds[0]] == thread))
  {
    var first, a, b := olds[0], Merge(alias, olds[1..], thread), Merge(alias, olds, thread);
    MergeOneMore(alias, olds, thread);
    assert first in b && b[first] == thread;
    if first in olds[1..] || (first in alias && alias[first] == thread) {
      SameMap(a, b);
    }
  }

  /** Losing a placement's first record makes no difference exactly when the state has it already. */
  lemma RestAppliesIff(s: State, p: Placement)
    ensures (if RestOf(p).Some? then Apply(s, RestOf(p).value) else s) == Apply(s, p) <==> FirstKnown(s, p)
  {
    if p.mergedFrom != [] {
      MergeTail(s.aliasOf, p.mergedFrom, p.threadID);
    } else {
      var t := Apply(s, p);
      assert t.aliasOf == s.aliasOf;
      assert p.messageID != "" ==> (t.byMessage == s.byMessage
        <==> (p.messageID in s.byMessage && s.byMessage[p.messageID] == p.threadID));
      assert p.subjectKey != "" ==> (t.bySubject == s.bySubject
        <==> (p.subjectKey in s.bySubject && s.bySubject[p.subjectKey] == p.threadID));
      assert t.byGUID == s.byGUID <==> (p.guid in s.byGUID && s.byGUID[p.guid] == p.threadID);
    }
  }

  /** When the records an append leaves in the file say what memory says. */
  ghost predicate SaysTheSame(text: string, p: Placement) {
    FlatPlacement(p) && (Complete(text) || ('\t' !in Tail(text) && FirstKnown(Contents(text).state, p)))
  }

  /** When an append leaves memory and file saying the same, and the file fit to be read. */
  ghost predicate AppendAgrees(text: string, p: Placement) {
    SaysTheSame(text, p) && Fits(text, RecordsOf(p))
  }

  function Appended(f: Folded, p: Placement): Folded {
    Folded(Apply(f.state, p), f.records + |RecordsOf(p)|, f.generation)
  }

  lemma TablessTail(text: string)
    requires '\t' !in Tail(text)
    ensures Contents(text) == Contents(Whole(text))
  {
    ParseTail(text);
    var line := TrimCR(Tail(text));
    assert forall c :: c in line ==> c in Tail(text);
    SplitWithout(line, '\t');
    assert Parse(text) == Parse(Whole(text));
  }

  lemma TornLoadsMore(text: string)
    ensures Contents(Whole(text)).records <= Contents(text).records
  {
    ParseTail(text);
    ContentsConcat(Whole(text), text, ParseLine(Tail(text)));
    FoldCounts(Contents(Whole(text)), ParseLine(Tail(text)));
  }

  lemma FlatRest(p: Placement)
    requires FlatPlacement(p) && RestOf(p).Some?
    ensures FlattenPlacement(RestOf(p).value) == RestOf(p).value
  {
    FlattenPlacementFlat(RestOf(p).value);
  }

  lemma TornAppendCounts(text: string, p: Placement)
    requires !Complete(text)
    ensures Contents(text + Render(RecordsOf(p))).records == Contents(text).records + |RecordsOf(p)| ==>
              '\t' !in Tail(text)
  {
    ContentsAfterTornAppend(text, p);
    TornLoadsMore(text);
  }

  lemma TablessAppend(text: string, p: Placement)
    requires !Complete(text) && FlatPlacement(p) && '\t' !in Tail(text)
    ensures var f := Contents(text);
            Contents(text + Render(RecordsOf(p)))
            == Appended(f, p).(state := if RestOf(p).Some? then Apply(f.state, RestOf(p).value) else f.state)
  {
    ContentsAfterTornAppend(text, p);
    if RestOf(p).Some? { FlatRest(p); }
    TablessTail(text);
  }

  lemma TornAppendAgreesIff(text: string, p: Placement)
    requires !Complete(text) && FlatPlacement(p)
    ensures Contents(text + Render(RecordsOf(p))) == Appended(Contents(text), p)
       <==> ('\t' !in Tail(text) && FirstKnown(Contents(text).state, p))
  {
    if '\t' in Tail(text) {
      TornAppendCounts(text, p);
    } else {
      TablessAppend(text, p);
      RestAppliesIff(Contents(text).state, p);
    }
  }

  lemma AppendSaysIff(text: string, p: Placement)
    requires FlatRecords(Parse(text))
    ensures Contents(text + Render(RecordsOf(p))) == Appended(Contents(text), p) <==> SaysTheSame(text, p)
  {
    if FlatPlacement(p) {
      if Complete(text) {
        ContentsAfterAppend(text, p);
        FlattenPlacementFlat(p);
      } else {
        TornAppendAgreesIff(text, p);
      }
    } else if Contents(text + Render(RecordsOf(p))) == Appended(Contents(text), p) {
      AppendedFileFlat(text, p);
      FlatAppliedPlacement(Contents(text).state, p);
    }
  }

  /** A file that can be read is fit to be read after an append exactly when every line the append makes fits. */
  lemma AppendLegibleIff(text: string, p: Placement)
    requires Load(text).Some?
    ensures Load(text + Render(RecordsOf(p))).Some? <==> Fits(text, RecordsOf(p))
  {
    RecordsOfTags(p);
    LegibleTail(text);
    AppendParses(text, RecordsOf(p));
  }

  /** What a reader finds after one placement is appended to a complete file it could read. */
  lemma LoadAfterAppend(text: string, p: Placement)
    requires Complete(text) && Load(text).Some?
    ensures Load(text + Render(RecordsOf(p))) ==
            if Fits(text, RecordsOf(p)) then Some(Appended(Load(text).value, FlattenPlacement(p))) else None
  {
    AppendLegibleIff(text, p);
    ContentsAppended(text, p);
  }

  lemma ContentsAppended(text: string, p: Placement)
    requires Complete(text)
    ensures Contents(text + Render(RecordsOf(p))) == Appended(Contents(text), FlattenPlacement(p))
  {
    ContentsAfterAppend(text, p);
    FlattenedCount(p);
  }

  lemma FlattenedCount(p: Placement)
    ensures |RecordsOf(FlattenPlacement(p))| == |RecordsOf(p)|
  {
    AliasCount(p.mergedFrom, p.threadID);
    AliasCount(FlattenAll(p.mergedFrom), Flatten(p.threadID));
  }

  /** The same behind an unterminated line: the whole lines, and the placement less its first record. */
  lemma LoadAfterTornAppend(text: string, p: Placement)
    requires !Complete(text) && Load(text).Some?
    ensures Load(Whole(text)).Some?
    ensures Load(text + Render(RecordsOf(p))) ==
            if Fits(text, RecordsOf(p)) then Some(AfterTorn(Load(Whole(text)).value, text, p)) else None
  {
    LegibleTail(text);
    AppendLegibleIff(text, p);
    ContentsAfterTornAppend(text, p);
  }

  /**
   * Memory and file agree after an append exactly when the placement carries no TAB, LF or CR (the
   * file flattens them, memory does not), no torn line swallows a record that mattered, and no line
   * outgrows the reader.
   */
  lemma AppendInStepIff(text: string, p: Placement)
    requires Load(text).Some? && FlatRecords(Parse(text))
    ensures Load(text + Render(RecordsOf(p))) == Some(Appended(Load(text).value, p)) <==> AppendAgrees(text, p)
  {
    AppendLegibleIff(text, p);
    AppendSaysIff(text, p);
  }

  lemma SubjectWritten(p: Placement)
    requires p.subjectKey != ""
    ensures Record("S", p.subjectKey, p.threadID) in RecordsOf(p)
  {
    var m := if p.messageID != "" then [Record("M", p.messageID, p.threadID)] else [];
    assert OwnRecords(p)[|m|] == Record("S", p.subjectKey, p.threadID);
    assert OwnRecords(p)[|m|] in OwnRecords(p);
  }

  /** One header value of a mebibyte is enough: whatever the file was, no reader gets through it again. */
  lemma LongSubjectUnreadable(text: string, p: Placement)
    requires |p.subjectKey| >= LIMIT
    ensures Load(text + Render(RecordsOf(p))).None?
  {
    var rs := RecordsOf(p);
    RecordsOfTags(p);
    AppendParses(text, rs);
    SubjectWritten(p);
    var i :| 0 <= i < |rs| && rs[i] == Record("S", p.subjectKey, p.threadID);
    assert i > 0 ==> rs[1..][i - 1] == rs[i];
  }

  // ----- compacting -----

  function Settle(m: map<string, ThreadId>, alias: map<ThreadId, ThreadId>): map<string, ThreadId> {
    map k | k in m :: Resolve(alias, m[k])
  }

  /** The state with its aliases folded away. */
  function Compacted(s: State): State {
    State(Settle(s.byMessage, s.aliasOf), Settle(s.bySubject, s.aliasOf), Settle(s.byGUID, s.aliasOf), map[])
  }

  /** The messages of a conversation, an aliased id answering for the one it became. */
  function Members(s: State, id: ThreadId): set<string> {
    set g | g in s.byGUID && ThreadOfGUID(s, g) == Resolve(s.aliasOf, id)
  }

  function Threads(s: State): set<ThreadId> {
    set g | g in s.byGUID :: ThreadOfGUID(s, g)
  }

  ghost predicate SameTable(
    a: map<string, ThreadId>, aAlias: map<ThreadId, ThreadId>,
    b: map<string, ThreadId>, bAlias: map<ThreadId, ThreadId>)
  {
    a.Keys == b.Keys && forall k :: k in a ==> Resolve(aAlias, a[k]) == Resolve(bAlias, b[k])
  }

  /** Two states no query on a message, a subject or an identity can tell apart. */
  ghost predicate SameAnswers(a: State, b: State) {
    && SameTable(a.byMessage, a.aliasOf, b.byMessage, b.aliasOf)
    && SameTable(a.bySubject, a.aliasOf, b.bySubject, b.aliasOf)
    && SameTable(a.byGUID, a.aliasOf, b.byGUID, b.aliasOf)
  }

  lemma EmptyAliasResolves(id: ThreadId)
    ensures Resolve(map[], id) == id
  {
  }

  /** Of any state, one with cycles included, compaction keeps every answer, and leaves no alias to go round in. */
  lemma CompactionBreaksCycles(s: State)
    ensures SameAnswers(s, Compacted(s)) && Forest(Compacted(s).aliasOf)
  {
    var c := Compacted(s);
    forall id: ThreadId
      ensures Resolve(c.aliasOf, id) == id && Settled(c.aliasOf, Follow(c.aliasOf, id, |c.aliasOf|))
    {
      EmptyAliasResolves(id);
    }
  }

  lemma CompactionSound(s: State)
    requires Sound(s)
    ensures Sound(Compacted(s)) && SameAnswers(s, Compacted(s))
  {
    var c := Compacted(s);
    KnownThreadsSettled(s);
    forall id: ThreadId
      ensures Resolve(c.aliasOf, id) == id && Settled(c.aliasOf, Follow(c.aliasOf, id, |c.aliasOf|))
    {
      EmptyAliasResolves(id);
    }
  }

  lemma {:induction false} SameHits(a: State, b: State, refs: seq<string>)
    requires SameAnswers(a, b)
    ensures Hits(a, refs) == Hits(b, refs)
  {
    if refs != [] {
      SameHits(a, b, refs[..|refs| - 1]);
      assert refs[|refs| - 1] in a.byMessage <==> refs[|refs| - 1] in b.byMessage;
    }
  }

  lemma SamePlacement(a: State, b: State, guid: string, h: Headers)
    requires SameAnswers(a, b)
    ensures PlacementFor(a, guid, h) == PlacementFor(b, guid, h)
  {
    SameHits(a, b, RefsOf(h));
    assert h.subjectKey in a.bySubject <==> h.subjectKey in b.bySubject;
  }

  /** The message joins a conversation, or starts one under a name no merge has swallowed. */
  predicate FreshName(s: State, guid: string, h: Headers) {
    guid != "" && (guid !in s.aliasOf || PlacementFor(s, guid, h).threadID != guid)
  }

  lemma PlacedThreadSettled(s: State, guid: string, h: Headers)
    requires Sound(s) && FreshName(s, guid, h)
    ensures PlacementFor(s, guid, h).threadID !in s.aliasOf
    ensures Resolve(s.aliasOf, PlacementFor(s, guid, h).threadID) == PlacementFor(s, guid, h).threadID
  {
    KnownThreadsSettled(s);
    PlacementMergeable(s, guid, h);
    var hits := Hits(s, RefsOf(h));
    if hits != [] { HitsMembers(s, RefsOf(h), hits[0]); }
  }

  ghost predicate Placeable(s: State, p: Placement) {
    && Forest(s.aliasOf) && Mergeable(s.aliasOf, p.mergedFrom, p.threadID)
    && Resolve(s.aliasOf, p.threadID) == p.threadID
  }

  lemma TableAfterMerge(
    a: map<string, ThreadId>, s: State, b: map<string, ThreadId>, t: State, p: Placement, key: string, put: bool)
    requires SameTable(a, s.aliasOf, b, t.aliasOf) && Placeable(s, p) && Placeable(t, p)
    ensures SameTable(if put then a[key := p.threadID] else a, Merge(s.aliasOf, p.mergedFrom, p.threadID),
                      if put then b[key := p.threadID] else b, Merge(t.aliasOf, p.mergedFrom, p.threadID))
  {
    SameTableMerged(a, s.aliasOf, b, t.aliasOf, p.mergedFrom, p.threadID);
    if put {
      var sAlias, tAlias := Merge(s.aliasOf, p.mergedFrom, p.threadID), Merge(t.aliasOf, p.mergedFrom, p.threadID);
      MergeResolves(s.aliasOf, p.mergedFrom, p.threadID);
      MergeResolves(t.aliasOf, p.mergedFrom, p.threadID);
      assert Resolve(sAlias, p.threadID) == Resolve(tAlias, p.threadID);
      SameTablePut(a, sAlias, b, tAlias, key, p.threadID);
    }
  }

  lemma SameTableMerged(a: map<string, ThreadId>, aAlias: map<ThreadId, ThreadId>, b: map<string, ThreadId>,
                        bAlias: map<ThreadId, ThreadId>, olds: seq<ThreadId>, survivor: ThreadId)
    requires SameTable(a, aAlias, b, bAlias) && Forest(aAlias) && Forest(bAlias)
    requires Mergeable(aAlias, olds, survivor) && Mergeable(bAlias, olds, survivor)
    ensures SameTable(a, Merge(aAlias, olds, survivor), b, Merge(bAlias, olds, survivor))
  {
    MergeResolves(aAlias, olds, survivor);
    MergeResolves(bAlias, olds, survivor);
    forall k | k in a
      ensures Resolve(Merge(aAlias, olds, survivor), a[k]) == Resolve(Merge(bAlias, olds, survivor), b[k])
    {
      assert Resolve(aAlias, a[k]) == Resolve(bAlias, b[k]);
    }
  }

  lemma SameTablePut(a: map<string, ThreadId>, aAlias: map<ThreadId, ThreadId>, b: map<string, ThreadId>,
                     bAlias: map<ThreadId, ThreadId>, key: string, id: ThreadId)
    requires SameTable(a, aAlias, b, bAlias) && Resolve(aAlias, id) == Resolve(bAlias, id)
    ensures SameTable(a[key := id], aAlias, b[key := id], bAlias)
  {
  }

  lemma AppliedSameAnswers(a: State, b: State, p: Placement)
    requires SameAnswers(a, b) && Placeable(a, p) && Placeable(b, p)
    ensures SameAnswers(Apply(a, p), Apply(b, p))
  {
    TableAfterMerge(a.byMessage, a, b.byMessage, b, p, p.messageID, p.messageID != "");
    TableAfterMerge(a.bySubject, a, b.bySubject, b, p, p.subjectKey, p.subjectKey != "");
    TableAfterMerge(a.byGUID, a, b.byGUID, b, p, p.guid, true);
  }

  /** Placing the same message in two states that answer alike leaves them answering alike. */
  lemma DeliverKeepsSameAnswers(a: State, b: State, guid: string, h: Headers)
    requires Sound(a) && Sound(b) && SameAnswers(a, b) && FreshName(a, guid, h) && FreshName(b, guid, h)
    ensures SameAnswers(Deliver(a, guid, h), Deliver(b, guid, h))
  {
    SamePlacement(a, b, guid, h);
    PlacementMergeable(a, guid, h);
    PlacementMergeable(b, guid, h);
    PlacedThreadSettled(a, guid, h);
    PlacedThreadSettled(b, guid, h);
    AppliedSameAnswers(a, b, PlacementFor(a, guid, h));
  }

  datatype Arrival = Arrival(guid: string, headers: Headers)

  function Run(s: State, arrivals: seq<Arrival>): State
    decreases arrivals
  {
    if arrivals == [] then s else Run(Deliver(s, arrivals[0].guid, arrivals[0].headers), arrivals[1..])
  }

  /** Along this run no message starts a conversation under the name of a swallowed one. */
  predicate FreshRun(s: State, arrivals: seq<Arrival>)
    decreases arrivals
  {
    arrivals == [] ||
    (FreshName(s, arrivals[0].guid, arrivals[0].headers)
     && FreshRun(Deliver(s, arrivals[0].guid, arrivals[0].headers), arrivals[1..]))
  }

  lemma FreshAfterCompaction(s: State, c: State, guid: string, h: Headers)
    requires SameAnswers(s, c) && FreshName(s, guid, h) && c.aliasOf.Keys <= s.aliasOf.Keys
    ensures FreshName(c, guid, h)
  {
    SamePlacement(s, c, guid, h);
  }

  lemma {:induction false} RunsAnswerAlike(s: State, c: State, arrivals: seq<Arrival>)
    requires Sound(s) && Sound(c) && SameAnswers(s, c) && c.aliasOf.Keys <= s.aliasOf.Keys && FreshRun(s, arrivals)
    ensures SameAnswers(Run(s, arrivals), Run(c, arrivals))
    decreases arrivals
  {
    if arrivals != [] {
      var guid, h := arrivals[0].guid, arrivals[0].headers;
      FreshAfterCompaction(s, c, guid, h);
      DeliverKeepsSameAnswers(s, c, guid, h);
      DeliverKeepsSound(s, guid, h);
      DeliverKeepsSound(c, guid, h);
      SamePlacement(s, c, guid, h);
      RunsAnswerAlike(Deliver(s, guid, h), Deliver(c, guid, h), arrivals[1..]);
    }
  }

  /** Compaction is invisible to every later delivery and query about messages, subjects and identities. */
  lemma CompactionInvisible(s: State, arrivals: seq<Arrival>)
    requires Sound(s) && FreshRun(s, arrivals)
    ensures SameAnswers(Run(s, arrivals), Run(Compacted(s), arrivals))
  {
    CompactionSound(s);
    RunsAnswerAlike(s, Compacted(s), arrivals);
  }

  lemma MergeNothing(alias: map<ThreadId, ThreadId>, survivor: ThreadId)
    ensures Merge(alias, [], survivor) == alias
  {
    SameMap(Merge(alias, [], survivor), alias);
  }

  lemma HitsNotSwallowed(s: State, refs: seq<string>)
    requires Sound(s) && Hits(s, refs) != []
    ensures Hits(s, refs)[0] !in s.aliasOf && Hits(s, refs)[0] != ""
  {
    KnownThreadsSettled(s);
    HitsMembers(s, refs, Hits(s, refs)[0]);
  }

  /** A message that starts a conversation under a swallowed name merges nothing. */
  lemma NothingMerged(s: State, guid: string, h: Headers)
    requires Sound(s) && guid in s.aliasOf && PlacementFor(s, guid, h).threadID == guid
    ensures PlacementFor(s, guid, h).mergedFrom == []
  {
    if Hits(s, RefsOf(h)) != [] { HitsNotSwallowed(s, RefsOf(h)); }
  }

  lemma AppliedMember(s: State, p: Placement)
    requires p.mergedFrom == [] && p.threadID == p.guid
    ensures p.guid in Apply(s, p).byGUID && ThreadOfGUID(Apply(s, p), p.guid) == Resolve(s.aliasOf, p.guid)
  {
    MergeNothing(s.aliasOf, p.threadID);
  }

  lemma SwallowedResolvesAway(s: State, id: ThreadId)
    requires Sound(s) && id in s.aliasOf && id != ""
    ensures Resolve(s.aliasOf, id) != id
  {
    ResolveSettles(s.aliasOf, id);
  }

  /** It is in the survivor's conversation before a compaction, and in one of its own after. */
  lemma StartedUnderSwallowedName(s: State, guid: string, h: Headers)
    requires Sound(s) && guid != "" && !FreshName(s, guid, h)
    ensures !SameAnswers(Deliver(s, guid, h), Deliver(Compacted(s), guid, h))
  {
    var c, p := Compacted(s), PlacementFor(s, guid, h);
    CompactionSound(s);
    SamePlacement(s, c, guid, h);
    NothingMerged(s, guid, h);
    AppliedMember(s, p);
    AppliedMember(c, p);
    SwallowedResolvesAway(s, guid);
    EmptyAliasResolves(guid);
  }

  /** Of one delivery: compaction before it is invisible after it exactly then. */
  lemma NextInvisibleIff(s: State, guid: string, h: Headers)
    requires Sound(s) && guid != ""
    ensures SameAnswers(Deliver(s, guid, h), Deliver(Compacted(s), guid, h)) <==> FreshName(s, guid, h)
  {
    if FreshName(s, guid, h) {
      CompactionSound(s);
      FreshAfterCompaction(s, Compacted(s), guid, h);
      DeliverKeepsSameAnswers(s, Compacted(s), guid, h);
    } else {
      StartedUnderSwallowedName(s, guid, h);
    }
  }

  /**
   * Compaction is visible to a client holding a merged thread's id: the id answers as before
   * exactly when it was never merged away or its conversation holds no message.
   */
  lemma CompactionForgetsMergedIds(s: State, id: ThreadId)
    requires Sound(s) && id != ""
    ensures Members(Compacted(s), id) == Members(s, id) <==> (id !in s.aliasOf || Members(s, id) == {})
  {
    var c := Compacted(s);
    CompactionSound(s);
    KnownThreadsSettled(s);
    EmptyAliasResolves(id);
    if id !in s.aliasOf {
      assert Resolve(s.aliasOf, id) == id;
      assert forall g :: g in c.byGUID ==> ThreadOfGUID(c, g) == ThreadOfGUID(s, g);
    } else {
      assert forall g :: g in c.byGUID ==> ThreadOfGUID(c, g) != id;
      assert Members(c, id) == {};
    }
  }

  // ----- the object -----

  lemma {:induction false} FoldTable(f: Folded, rs: seq<Record>, tag: string, k: string, v: string)
    requires Known(tag)
    requires forall i :: 0 <= i < |rs| && rs[i].tag == tag && rs[i].key == k ==> rs[i].val == v
    ensures var before, after := Table(f.state, tag), Table(FoldAll(f, rs).state, tag);
            if exists i :: 0 <= i < |rs| && rs[i].tag == tag && rs[i].key == k
            then k in after && after[k] == v
            else (k in after <==> k in before) && (k in before ==> after[k] == before[k])
    decreases rs
  {
    if rs != [] {
      FoldTable(Fold(f, rs[0]), rs[1..], tag, k, v);
      if i :| 0 <= i < |rs| && rs[i].tag == tag && rs[i].key == k {
        assert i > 0 ==> rs[1..][i - 1] == rs[i];
      }
    }
  }

  lemma {:induction false} FoldCounts(f: Folded, rs: seq<Record>)
    ensures FoldAll(f, rs).records == f.records + |rs|
    decreases rs
  {
    if rs != [] { FoldCounts(Fold(f, rs[0]), rs[1..]); }
  }

  lemma {:induction false} FlatAsWritten(rs: seq<Record>)
    requires FlatRecords(rs)
    ensures AllWritten(rs) == rs
  {
    if rs != [] {
      FlattenFlat(rs[0].key);
      FlattenFlat(rs[0].val);
      FlatAsWritten(rs[1..]);
    }
  }

  /** The records that spell one map out, aliases resolved, in any order. */
  ghost predicate Spells(rs: seq<Record>, s: State) {
    forall r :: r in rs <==> r.tag in {"G", "M", "S"} && r.key in Table(s, r.tag) && r.val == Table(s, r.tag)[r.key]
  }

  lemma SpelledTable(rs: seq<Record>, s: State, tag: string, f: Folded)
    requires Spells(rs, s) && Known(tag) && s.aliasOf == map[] && f.state == EMPTY
    ensures Table(FoldAll(f, rs).state, tag) == Table(s, tag)
  {
    var table := Table(FoldAll(f, rs).state, tag);
    forall k: string
      ensures k in table <==> k in Table(s, tag)
      ensures k in table ==> table[k] == Table(s, tag)[k]
    {
      assert forall i :: 0 <= i < |rs| ==> rs[i] in rs;
      if k in Table(s, tag) {
        var v := Table(s, tag)[k];
        assert Record(tag, k, v) in rs;
        FoldTable(f, rs, tag, k, v);
      } else {
        FoldTable(f, rs, tag, k, "");
      }
    }
  }

  lemma SpelledFlat(rs: seq<Record>, s: State)
    requires Spells(rs, s)
    ensures FlatTags(rs)
    ensures FlatState(s) ==> FlatRecords(rs)
  {
    forall i | 0 <= i < |rs|
      ensures Flat(rs[i].tag) && (FlatState(s) ==> Flat(rs[i].key) && Flat(rs[i].val))
    {
      assert rs[i] in rs;
    }
  }

  lemma HeadedFileParses(header: Record, rs: seq<Record>)
    requires header.tag == "C" && FlatTags(rs)
    ensures Complete(Render([header] + rs))
    ensures Parse(Render([header] + rs)) == [Written(header)] + AllWritten(rs)
    ensures FlatRecords(Parse(Render([header] + rs)))
    ensures Legible(Render([header] + rs)) <==> Width(header) < LIMIT && Short(rs)
  {
    ShortParts([header] + rs);
    LegibleNothing();
    var all := [header] + rs;
    assert all[1..] == rs;
    assert FlatTags(all);
    RenderParses("", all);
    assert "" + Render(all) == Render(all);
    ParseNothing();
    AllWrittenFlat(all);
  }

  lemma StateByTables(a: State, b: State)
    requires forall tag :: Known(tag) ==> Table(a, tag) == Table(b, tag)
    ensures a == b
  {
    assert Known("M") && Known("S") && Known("G") && Known("A");
    assert Table(a, "M") == a.byMessage && Table(a, "S") == a.bySubject;
    assert Table(a, "G") == a.byGUID && Table(a, "A") == a.aliasOf;
    assert Table(b, "M") == b.byMessage && Table(b, "S") == b.bySubject;
    assert Table(b, "G") == b.byGUID && Table(b, "A") == b.aliasOf;
  }

  lemma {:induction false} SpelledGeneration(f: Folded, rs: seq<Record>)
    requires forall i :: 0 <= i < |rs| ==> rs[i].tag != "C"
    ensures FoldAll(f, rs).generation == f.generation
    decreases rs
  {
    if rs != [] { SpelledGeneration(Fold(f, rs[0]), rs[1..]); }
  }

  lemma {:induction false} DigitsFlat(s: string)
    requires AllDigits(s)
    ensures Flatten(s) == s
  {
    FlattenFlat(s);
  }

  predicate ShortTable(m: map<string, ThreadId>) {
    forall k :: k in m ==> |k| + |m[k]| + 3 < LIMIT
  }

  /** Every entry fits a line of the reader's buffer. */
  predicate ShortState(s: State) {
    ShortTable(s.byMessage) && ShortTable(s.bySubject) && ShortTable(s.byGUID)
  }

  lemma ShortByTables(s: State)
    ensures ShortState(s) <==> forall tag :: tag in {"G", "M", "S"} ==> ShortTable(Table(s, tag))
  {
    assert Table(s, "M") == s.byMessage && Table(s, "S") == s.bySubject && Table(s, "G") == s.byGUID;
  }

  lemma SpelledShort(rs: seq<Record>, s: State)
    requires Spells(rs, s)
    ensures Short(rs) <==> ShortState(s)
  {
    ShortByTables(s);
    if Short(rs) {
      forall tag, k | tag in {"G", "M", "S"} && k in Table(s, tag)
        ensures |k| + |Table(s, tag)[k]| + 3 < LIMIT
      {
        var r := Record(tag, k, Table(s, tag)[k]);
        assert r in rs;
        var i :| 0 <= i < |rs| && rs[i] == r;
        assert Width(rs[i]) < LIMIT;
      }
    }
    if ShortState(s) {
      forall i | 0 <= i < |rs|
        ensures Width(rs[i]) < LIMIT
      {
        assert rs[i] in rs && ShortTable(Table(s, rs[i].tag));
      }
    }
  }

  lemma HeaderShort(generation: Uint64, now: Int64)
    ensures Width(Header(generation, now)) < LIMIT
  {
    var n: int := now;
    assert InRange(n);
    DecimalShort(generation);
    DecimalShort(if n < 0 then -n else n);
  }

  function Header(generation: Uint64, now: Int64): Record {
    Record("C", Decimal(generation), Format(now))
  }

  lemma HeaderFolds(generation: Uint64, now: Int64)
    ensures Fold(NOTHING, Written(Header(generation, now))) == Folded(EMPTY, 1, generation)
  {
    DecimalReadsBack(generation);
    DigitsFlat(Decimal(generation));
  }

  lemma SpelledFolds(f: Folded, rs: seq<Record>, s: State)
    requires Spells(rs, s) && s.aliasOf == map[] && f.state == EMPTY
    ensures FoldAll(f, rs) == Folded(s, f.records + |rs|, f.generation)
  {
    FoldCounts(f, rs);
    assert forall i :: 0 <= i < |rs| ==> rs[i] in rs;
    SpelledGeneration(f, rs);
    forall tag | Known(tag)
      ensures Table(FoldAll(f, rs).state, tag) == Table(s, tag)
    {
      SpelledTable(rs, s, tag, f);
    }
    StateByTables(FoldAll(f, rs).state, s);
  }

  /** A compacted file folds back to the compacted state and its generation. */
  lemma CompactedFileFolds(generation: Uint64, now: Int64, rs: seq<Record>, s: State)
    requires Spells(rs, s) && FlatState(s) && s.aliasOf == map[]
    ensures Contents(Render([Header(generation, now)] + rs)) == Folded(s, 1 + |rs|, generation)
  {
    var header := Header(generation, now);
    SpelledFlat(rs, s);
    HeadedFileParses(header, rs);
    FlatAsWritten(rs);
    HeaderFolds(generation, now);
    assert ([Written(header)] + rs)[1..] == rs;
    SpelledFolds(Folded(EMPTY, 1, generation), rs, s);
  }

  /** What a reader gets of a compacted file: the state and its generation, unless an entry outgrows its buffer. */
  lemma CompactedFileLoads(generation: Uint64, now: Int64, rs: seq<Record>, s: State)
    requires Spells(rs, s) && FlatState(s) && s.aliasOf == map[]
    ensures Load(Render([Header(generation, now)] + rs)) ==
            if ShortState(s) then Some(Folded(s, 1 + |rs|, generation)) else None
  {
    SpelledFlat(rs, s);
    SpelledShort(rs, s);
    HeaderShort(generation, now);
    HeadedFileParses(Header(generation, now), rs);
    CompactedFileFolds(generation, now, rs, s);
  }

  /**
   * A compacted file says what memory says exactly when no key or thread memory holds carries a
   * separator and every entry fits the reader's buffer.
   */
  lemma CompactedInStepIff(generation: Uint64, now: Int64, rs: seq<Record>, s: State)
    requires Spells(rs, Compacted(s))
    ensures Complete(Render([Header(generation, now)] + rs))
    ensures FlatRecords(Parse(Render([Header(generation, now)] + rs)))
    ensures Load(Render([Header(generation, now)] + rs)) == Some(Folded(Compacted(s), 1 + |rs|, generation))
       <==> FlatState(Compacted(s)) && ShortState(Compacted(s))
  {
    var text := Render([Header(generation, now)] + rs);
    SpelledFlat(rs, Compacted(s));
    HeadedFileParses(Header(generation, now), rs);
    FoldAllFlat(NOTHING, Parse(text));
    if FlatState(Compacted(s)) {
      CompactedFileLoads(generation, now, rs, Compacted(s));
    }
  }

  lemma CompactedFlat(s: State)
    requires Sound(s) && FlatState(s)
    ensures FlatState(Compacted(s))
  {
    forall id: ThreadId | Flat(id)
      ensures Flat(Resolve(s.aliasOf, id))
    {
      FollowFlat(s.aliasOf, id, |s.aliasOf| + 1);
    }
  }

  lemma {:induction false} FollowFlat(alias: map<ThreadId, ThreadId>, id: ThreadId, n: nat)
    requires FlatTable(alias) && Flat(id)
    ensures Flat(Follow(alias, id, n))
    decreases n
  {
    if n > 0 && !Settled(alias, id) { FollowFlat(alias, alias[id], n - 1); }
  }

  predicate RecordLeq(a: Record, b: Record) {
    StringLeq(Line(a), Line(b))
  }

  /** The compacted lines stand in the order of the strings they are. */
  lemma LinesInOrder(rs: seq<Record>, a: Record, b: Record) returns (i: nat, j: nat)
    requires a in rs && b in rs && ComesFirst(Line(a), Line(b))
    ensures i < j < |SortBy(RecordLeq, rs)| && SortBy(RecordLeq, rs)[i] == a && SortBy(RecordLeq, rs)[j] == b
  {
    RecordOrderIsTotal();
    ComesFirstIsStrict(Line(a), Line(b));
    i, j := SortByOrders(RecordLeq, rs, a, b);
  }

  /** One of the three map walks of `Compact`. */
  method TableRecords(tag: string, m: map<string, ThreadId>, alias: map<ThreadId, ThreadId>) returns (rs: seq<Record>)
    ensures forall r :: r in rs <==> r.tag == tag && r.key in m && r.val == Resolve(alias, m[r.key])
  {
    rs := [];
    var todo := m.Keys;
    while todo != {}
      invariant todo <= m.Keys
      invariant forall r :: r in rs
                  <==> r.tag == tag && r.key in m && r.key !in todo && r.val == Resolve(alias, m[r.key])
      decreases |todo|
    {
      var k :| k in todo;
      var id := ResolveAlias(alias, m[k]);
      rs, todo := rs + [Record(tag, k, id)], todo - {k};
    }
  }

  /** Everything `Compact` writes below the header, sorted as text. */
  method CompactRecords(s: State) returns (sorted: seq<Record>)
    ensures Spells(sorted, Compacted(s)) && SortedBy(RecordLeq, sorted)
  {
    var guids := TableRecords("G", s.byGUID, s.aliasOf);
    var messages := TableRecords("M", s.byMessage, s.aliasOf);
    var subjects := TableRecords("S", s.bySubject, s.aliasOf);
    var recs := guids + messages + subjects;
    sorted := SortBy(RecordLeq, recs);
    SortedRecords(recs);
  }

  lemma SortedRecords(recs: seq<Record>)
    ensures SortedBy(RecordLeq, SortBy(RecordLeq, recs)) && forall r :: r in SortBy(RecordLeq, recs) <==> r in recs
  {
    var sorted := SortBy(RecordLeq, recs);
    RecordOrderIsTotal();
    SortByPermutes(RecordLeq, recs);
    SortBySorted(RecordLeq, recs);
    forall r
      ensures r in sorted <==> r in recs
    {
      assert r in sorted <==> r in multiset(sorted);
      assert r in recs <==> r in multiset(recs);
    }
  }

  lemma RecordOrderIsTotal()
    ensures TotalOrder(RecordLeq)
  {
    StringOrderIsTotal();
  }

  lemma MergeLast(alias: map<ThreadId, ThreadId>, olds: seq<ThreadId>, id: ThreadId, thread: ThreadId)
    ensures Merge(alias, olds, thread)[id := thread] == Merge(alias, olds + [id], thread)
  {
    SameMap(Merge(alias, olds, thread)[id := thread], Merge(alias, olds + [id], thread));
  }

  method MergeAliases(alias: map<ThreadId, ThreadId>, olds: seq<ThreadId>, thread: ThreadId)
    returns (merged: map<ThreadId, ThreadId>)
    ensures merged == Merge(alias, olds, thread)
  {
    merged := alias;
    SameMap(alias, Merge(alias, [], thread));
    for i := 0 to |olds|
      invariant merged == Merge(alias, olds[..i], thread)
    {
      MergeLast(alias, olds[..i], olds[i], thread);
      PrefixNext(olds, i);
      merged := merged[olds[i] := thread];
    }
    assert olds[..|olds|] == olds;
  }

  function Scanned(lines: seq<string>): Folded {
    FoldAll(NOTHING, ParseLines(lines))
  }

  lemma ScannedSnoc(lines: seq<string>, line: string)
    ensures Scanned(lines + [line]) == FoldAll(Scanned(lines), ParseLine(line))
  {
    ParseLinesConcat(lines, [line]);
    assert ParseLines([line]) == ParseLine(line) + ParseLines([]) == ParseLine(line);
    FoldAllConcat(NOTHING, ParseLines(lines), ParseLine(line));
  }

  lemma ScannedNext(lines: seq<string>, i: nat)
    requires i < |lines|
    ensures Scanned(lines[..i + 1]) == FoldAll(Scanned(lines[..i]), ParseLine(lines[i]))
  {
    PrefixNext(lines, i);
    ScannedSnoc(lines[..i], lines[i]);
  }

  method ScanLine(f: Folded, line: string) returns (g: Folded)
    ensures g == FoldAll(f, ParseLine(line))
  {
    var fields := Split(TrimCR(line), '\t');
    if |fields| != 3 { return f; }
    var r := Record(fields[0], fields[1], fields[2]);
    FoldOne(f, r);
    assert ParseLine(line) == [r];
    g := Fold(f, r);
  }

  lemma FoldOne(f: Folded, r: Record)
    ensures FoldAll(f, [r]) == Fold(f, r)
  {
    assert FoldAll(f, [r]) == FoldAll(Fold(f, r), []);
  }

  lemma LoadIsScan(text: string)
    ensures var lines := Split(text, '\n');
            Load(text) == if AllShort(lines) then Some(Scanned(lines[..|lines|])) else None
  {
    var lines := Split(text, '\n');
    assert lines[..|lines|] == lines;
  }

  /** The scanning loop of `Load`, stopped by the first line its buffer cannot hold. */
  method ScanLines(lines: seq<string>) returns (g: Folded, read: nat)
    ensures read <= |lines| && g == Scanned(lines[..read])
    ensures read == |lines| <==> AllShort(lines)
  {
    g, read := NOTHING, 0;
    while read < |lines| && |lines[read]| < LIMIT
      invariant read <= |lines| && g == Scanned(lines[..read])
      invariant forall j :: 0 <= j < read ==> |lines[j]| < LIMIT
    {
      g := ScanNext(lines, read, g);
      read := read + 1;
    }
  }

  method ScanNext(lines: seq<string>, i: nat, f: Folded) returns (g: Folded)
    requires i < |lines| && f == Scanned(lines[..i])
    ensures g == Scanned(lines[..i + 1])
  {
    ScannedNext(lines, i);
    g := ScanLine(f, lines[i]);
  }

  method LoadFile(text: string) returns (f: Option<Folded>)
    ensures f == Load(text)
  {
    var lines := Split(text, '\n');
    var g, read := ScanLines(lines);
    LoadIsScan(text);
    f := if read == |lines| then Some(g) else None;
  }

  function Min(a: nat, b: nat): nat {
    if a < b then a else b
  }

  /** `threads.State`, the file at its path and the size the cache last saw it at. */
  class Sidecar {
    var text: string
    var byMessage: map<string, ThreadId>
    var bySubject: map<string, ThreadId>
    var byGUID: map<string, ThreadId>
    var aliasOf: map<ThreadId, ThreadId>
    var records: nat
    var generation: Uint64
    var noted: nat

    function View(): State
      reads this
    {
      State(byMessage, bySubject, byGUID, aliasOf)
    }

    function Memory(): Folded
      reads this
    {
      Folded(View(), records, generation)
    }

    /** Memory is what a fresh reader of the file would fold. */
    ghost predicate Agrees()
      reads this
    {
      Load(text) == Some(Memory())
    }

    /**
     * What the next delivery places from: memory, unless the file has changed since; nothing if that
     * cannot be read.
     */
    ghost function Current(touched: bool): Option<Folded>
      reads this
    {
      if noted == |text| && !touched then Some(Memory()) else Load(text)
    }

    constructor ()
      ensures Agrees() && Memory() == NOTHING && text == "" && noted == 0
    {
      text, byMessage, bySubject, byGUID, aliasOf := "", map[], map[], map[], map[];
      records, generation, noted := 0, 0, 0;
      new;
      ParseNothing();
      LegibleNothing();
    }

    /**
     * `Cache.Get`: the cached fold while size and modification time are those last seen, a new one
     * otherwise; a file that cannot be read fails it and leaves the cache alone.
     */
    method Get(touched: bool) returns (ok: bool)
      modifies this
      ensures text == old(text)
      ensures ok <==> old(Current(touched)).Some?
      ensures ok ==> Some(Memory()) == old(Current(touched)) && noted == |text|
      ensures !ok ==> Memory() == old(Memory()) && noted == old(noted)
    {
      if noted == |text| && !touched { return true; }
      var f := LoadFile(text);
      if f.None? { return false; }
      var s := f.value.state;
      byMessage, bySubject, byGUID, aliasOf := s.byMessage, s.bySubject, s.byGUID, s.aliasOf;
      records, generation, noted := f.value.records, f.value.generation, |text|;
      ok := true;
    }

    /** File first, memory after: a write that fails may leave any part of itself in the file, and nothing in memory. */
    method Append(p: Placement, fails: bool, written: nat) returns (ok: bool)
      modifies this
      ensures ok <==> p.threadID != "" && !fails
      ensures noted == old(noted)
      ensures ok ==> text == old(text) + Render(RecordsOf(p)) && Memory() == Appended(old(Memory()), p)
      ensures !ok ==> Memory() == old(Memory())
      ensures !ok ==>
                text == old(text) + if p.threadID == "" then ""
                                    else Render(RecordsOf(p))[..Min(written, |Render(RecordsOf(p))|)]
    {
      if p.threadID == "" {
        assert text + "" == text;
        return false;
      }
      var lines := Render(RecordsOf(p));
      if fails {
        text := text + lines[..Min(written, |lines|)];
        return false;
      }
      text := text + lines;
      records := records + |RecordsOf(p)|;
      byGUID := byGUID[p.guid := p.threadID];
      if p.messageID != "" { byMessage := byMessage[p.messageID := p.threadID]; }
      if p.subjectKey != "" { bySubject := bySubject[p.subjectKey := p.threadID]; }
      aliasOf := MergeAliases(aliasOf, p.mergedFrom, p.threadID);
      ok := true;
    }

    /**
     * One delivery: refold if the file changed, place, append, note the size. Placed from what a
     * reader finds, it leaves memory and file in step exactly when `AppendAgrees` says so. A failed
     * write leaves memory as it was placed from, and the next delivery refolds if anything was
     * written; a file that cannot be read changes nothing.
     */
    method Record(guid: string, h: Headers, touched: bool, fails: bool, written: nat) returns (ok: bool)
      modifies this
      ensures ok <==> guid != "" && old(Current(touched)).Some? && !fails
      ensures guid == "" || old(Current(touched)).None? ==>
                text == old(text) && Memory() == old(Memory()) && noted == old(noted)
      ensures guid != "" && old(Current(touched)).Some? ==>
                var from := old(Current(touched)).value;
                var p := PlacementFor(from.state, guid, h);
                var lines := Render(RecordsOf(p));
                && text == old(text) + (if ok then lines else lines[..Min(written, |lines|)])
                && Memory() == (if ok then Appended(from, p) else from)
                && noted == (if ok then |text| else |old(text)|)
      ensures ok && old(Current(touched)) == Load(old(text)) && FlatRecords(Parse(old(text))) ==>
                (Agrees() <==> AppendAgrees(old(text), PlacementFor(Load(old(text)).value.state, guid, h)))
    {
      if guid == "" { return false; }
      ok := Get(touched);
      if !ok { return; }
      var p := Place(View(), guid, h);
      ghost var before := text;
      ok := Append(p, fails, written);
      if ok {
        noted := |text|;
        if old(Current(touched)) == Load(before) && FlatRecords(Parse(before)) { AppendInStepIff(before, p); }
      }
    }

    /**
     * The whole rewrite, under a header one generation on, and the maps resolved with it; a failure
     * anywhere before the rename changes nothing.
     */
    method Compact(now: Int64, fails: bool) returns (ok: bool)
      modifies this
      ensures ok <==> !fails
      ensures noted == old(noted)
      ensures !ok ==> text == old(text) && Memory() == old(Memory())
      ensures ok ==> View() == Compacted(old(View())) && generation == Successor(old(generation))
      ensures ok ==> Complete(text) && FlatRecords(Parse(text))
      ensures ok ==> (Agrees() <==> FlatState(Compacted(old(View()))) && ShortState(Compacted(old(View()))))
    {
      ghost var before := View();
      var sorted := CompactRecords(View());
      var gen := Successor(generation);
      if fails { return false; }
      CompactedInStepIff(gen, now, sorted, before);
      text := Render([Header(gen, now)] + sorted);
      byGUID := Settle(byGUID, aliasOf);
      byMessage := Settle(byMessage, aliasOf);
      bySubject := Settle(bySubject, aliasOf);
      aliasOf := map[];
      generation := gen;
      records := 1 + |sorted|;
      assert View() == Compacted(before);
      ok := true;
    }
  }

  /** The state is what a fresh reader of a complete file would fold, and everything in it is flat. */
  ghost predicate FileInStep(text: string, f: Folded) {
    && Complete(text) && FlatRecords(Parse(text)) && Load(text) == Some(f)
    && Sound(f.state) && FlatState(f.state)
  }

  lemma DeliveredInStep(text: string, f: Folded, guid: string, h: Headers)
    requires FileInStep(text, f) && guid != "" && Flat(guid) && Flat(h.messageID) && Flat(h.subjectKey)
    ensures var p := PlacementFor(f.state, guid, h);
            && (FileInStep(text + Render(RecordsOf(p)), Appended(f, p)) <==> Fits(text, RecordsOf(p)))
            && Appended(f, p).state == Deliver(f.state, guid, h)
  {
    var p := PlacementFor(f.state, guid, h);
    RecordsOfTags(p);
    RenderParses(text, RecordsOf(p));
    PlacementFlat(f.state, guid, h);
    AppendInStepIff(text, p);
    AppendedFileFlat(text, p);
    AppendLegibleIff(text, p);
    DeliverKeepsSound(f.state, guid, h);
  }

  /**
   * After a compaction of a sound, flat state the file is in step again, whatever it was before,
   * exactly when every entry fits.
   */
  lemma CompactedInStep(generation: Uint64, now: Int64, rs: seq<Record>, s: State)
    requires Sound(s) && FlatState(s) && Spells(rs, Compacted(s))
    ensures FileInStep(Render([Header(generation, now)] + rs), Folded(Compacted(s), 1 + |rs|, generation))
       <==> ShortState(Compacted(s))
  {
    CompactionSound(s);
    CompactedFlat(s);
    CompactedInStepIff(generation, now, rs, s);
  }

  lemma PlacementFlat(s: State, guid: string, h: Headers)
    requires FlatState(s) && Flat(guid) && Flat(h.messageID) && Flat(h.subjectKey)
    ensures FlatPlacement(PlacementFor(s, guid, h))
  {
    forall id: ThreadId | Flat(id)
      ensures Flat(Resolve(s.aliasOf, id))
    {
      FollowFlat(s.aliasOf, id, |s.aliasOf| + 1);
    }
    var hits := Hits(s, RefsOf(h));
    forall i | 0 <= i < |hits|
      ensures Flat(hits[i])
    {
      HitsMembers(s, RefsOf(h), hits[i]);
      var ref :| ref in RefsOf(h) && ref in s.byMessage && ThreadOfMessage(s, ref) == hits[i];
    }
  }
}
