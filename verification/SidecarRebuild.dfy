/** The thread backfill of one account: app/yarilo-migrate/threadbackfill.go. */
module SidecarRebuild {
  import opened Basics
  import opened Order
  import opened ThreadPlacement
  import opened Conversations
  import opened SidecarLog
  import opened SidecarStore
  import opened Text

  /** One index row; an empty `guid` is the zero identity, `head` is what reading its headers gave. */
  datatype Meta = Meta(uid: nat, guid: string, head: Option<Headers>)

  /** A folder's index as the walk reads it; `None` is a folder that cannot be opened or read. */
  type Account = map<string, Option<seq<Meta>>>

  // ----- what a rebuild reads -----

  predicate UidLeq(a: Meta, b: Meta) {
    a.uid <= b.uid
  }

  function ReadableRow(m: Meta): seq<Message> {
    if m.guid != "" && m.head.Some? then [Message(m.guid, m.head.value)] else []
  }

  function ReadableRows(metas: seq<Meta>): seq<Message> {
    if metas == [] then [] else ReadableRows(metas[..|metas| - 1]) + ReadableRow(metas[|metas| - 1])
  }

  predicate Readable(account: Account, names: seq<string>) {
    forall i :: 0 <= i < |names| ==> names[i] in account && account[names[i]].Some?
  }

  function FolderMessages(account: Account, name: string): seq<Message>
    requires name in account && account[name].Some?
  {
    ReadableRows(SortBy(UidLeq, account[name].value))
  }

  function WalkInOrder(account: Account, names: seq<string>): seq<Message>
    requires Readable(account, names)
  {
    if names == [] then []
    else WalkInOrder(account, names[..|names| - 1]) + FolderMessages(account, names[|names| - 1])
  }

  lemma SortedReadable(account: Account, names: seq<string>)
    requires Readable(account, names)
    ensures Readable(account, SortBy(StringLeq, names))
  {
    var ordered := SortBy(StringLeq, names);
    SortByPermutes(StringLeq, names);
    forall i | 0 <= i < |ordered|
      ensures ordered[i] in names
    {
      assert ordered[i] in multiset(names);
    }
  }

  /** The placement sequence of a rebuild: folders by name, each folder by UID. */
  function Walk(account: Account, names: seq<string>): seq<Message>
    requires Readable(account, names)
  {
    SortedReadable(account, names);
    WalkInOrder(account, SortBy(StringLeq, names))
  }

  function RowCount(account: Account, names: seq<string>): nat
    requires Readable(account, names)
  {
    if names == [] then 0
    else RowCount(account, names[..|names| - 1]) + |account[names[|names| - 1]].value|
  }

  lemma {:induction false} RowCountFirst(account: Account, name: string, names: seq<string>)
    requires Readable(account, [name] + names)
    ensures Readable(account, names) && name in account && account[name].Some?
    ensures RowCount(account, [name] + names) == |account[name].value| + RowCount(account, names)
  {
    var all := [name] + names;
    assert forall i :: 0 <= i < |names| ==> names[i] == all[i + 1];
    assert all[0] == name;
    if names == [] {
      assert all[..0] == [];
    } else {
      assert all[..|all| - 1] == [name] + names[..|names| - 1];
      RowCountFirst(account, name, names[..|names| - 1]);
    }
  }

  lemma {:induction false} RowCountInsert(account: Account, name: string, names: seq<string>)
    requires Readable(account, names) && name in account && account[name].Some?
    ensures Readable(account, InsertBy(StringLeq, name, names))
    ensures RowCount(account, InsertBy(StringLeq, name, names)) == |account[name].value| + RowCount(account, names)
  {
    if names == [] || StringLeq(name, names[0]) {
      RowCountFirst(account, name, names);
    } else {
      RowCountInsert(account, name, names[1..]);
      assert names == [names[0]] + names[1..];
      RowCountFirst(account, names[0], names[1..]);
      RowCountFirst(account, names[0], InsertBy(StringLeq, name, names[1..]));
    }
  }

  lemma {:induction false} RowCountSorted(account: Account, names: seq<string>)
    requires Readable(account, names)
    ensures Readable(account, SortBy(StringLeq, names))
    ensures RowCount(account, SortBy(StringLeq, names)) == RowCount(account, names)
  {
    if names != [] {
      assert names == [names[0]] + names[1..];
      RowCountSorted(account, names[1..]);
      RowCountFirst(account, names[0], names[1..]);
      RowCountInsert(account, names[0], SortBy(StringLeq, names[1..]));
    }
  }

  lemma WalkOfTwo(account: Account, f: string, g: string)
    requires Readable(account, [g, f]) && f != g && StringLeq(f, g)
    ensures f in account && account[f].Some? && g in account && account[g].Some?
    ensures Walk(account, [g, f]) == FolderMessages(account, f) + FolderMessages(account, g)
  {
    assert [g, f][0] == g && [g, f][1] == f;
    if StringLeq(g, f) { StringLeqAntisymmetric(f, g); }
    assert [g, f][1..] == [f] && [f][1..] == [];
    assert SortBy(StringLeq, [f]) == InsertBy(StringLeq, f, []) == [f];
    assert InsertBy(StringLeq, g, [f]) == [f] + InsertBy(StringLeq, g, []);
    assert SortBy(StringLeq, [g, f]) == [f, g];
    assert [f, g][..1] == [f] && [f][..0] == [];
    assert WalkInOrder(account, [f]) == FolderMessages(account, f);
  }

  lemma FolderOfOne(account: Account, name: string, m: Meta)
    requires name in account && account[name] == Some([m]) && m.guid != "" && m.head.Some?
    ensures FolderMessages(account, name) == [Message(m.guid, m.head.value)]
  {
    assert [m][1..] == [] && [m][..0] == [];
    assert SortBy(UidLeq, [m]) == InsertBy(UidLeq, m, []) == [m];
    assert ReadableRows([m]) == [] + ReadableRow(m) == ReadableRow(m);
  }

  /**
   * A reply filed in a folder that sorts before the folder of what it answers: one conversation when
   * they were delivered, two after a rebuild.
   */
  lemma RebuildSeparatesReply(f: string, g: string, original: Meta, reply: Meta)
    requires f != g && StringLeq(f, g)
    requires original.head.Some? && reply.head.Some? && original.guid != reply.guid
    requires original.guid != "" && reply.guid != ""
    requires original.head.value.messageID in RefsOf(reply.head.value)
    requires reply.head.value.messageID !in RefsOf(original.head.value)
    requires original.head.value.subjectKey == "" || original.head.value.subjectKey != reply.head.value.subjectKey
    ensures var o, r := Message(original.guid, original.head.value), Message(reply.guid, reply.head.value);
            var account: Account := map[f := Some([reply]), g := Some([original])];
            && Readable(account, [g, f])
            && Together([o, r], o.guid, r.guid)
            && Walk(account, [g, f]) == [r, o]
            && !Together(Walk(account, [g, f]), o.guid, r.guid)
  {
    var o, r := Message(original.guid, original.head.value), Message(reply.guid, reply.head.value);
    var account: Account := map[f := Some([reply]), g := Some([original])];
    WalkMeetsFirst(account, f, g, reply, original);
    DistinctPair(o, r);
    DistinctPair(r, o);
    ReplyMetFirst(o, r);
  }

  lemma WalkMeetsFirst(account: Account, f: string, g: string, a: Meta, b: Meta)
    requires f != g && StringLeq(f, g) && f in account && g in account
    requires account[f] == Some([a]) && a.guid != "" && a.head.Some?
    requires account[g] == Some([b]) && b.guid != "" && b.head.Some?
    ensures Readable(account, [g, f])
    ensures Walk(account, [g, f]) == [Message(a.guid, a.head.value), Message(b.guid, b.head.value)]
  {
    FolderOfOne(account, f, a);
    FolderOfOne(account, g, b);
    assert [g, f][0] == g && [g, f][1] == f;
    WalkOfTwo(account, f, g);
  }

  lemma DistinctPair(x: Message, y: Message)
    requires x.guid != "" && y.guid != "" && x.guid != y.guid
    ensures DistinctGUIDs([x, y])
  {
    assert Front([x, y]) == [x] && Front([x]) == [];
    assert GUIDs([x]) == {x.guid} && DistinctGUIDs([x]);
  }

  predicate Threaded(m: Meta) {
    m.guid != "" && m.head.Some?
  }

  function MessageOf(m: Meta): Message
    requires Threaded(m)
  {
    Message(m.guid, m.head.value)
  }

  lemma BeforeInFirst(a: seq<Message>, b: seq<Message>, x: Message, y: Message)
    requires Before(a, x, y)
    ensures Before(a + b, x, y)
  {
    var i, j :| 0 <= i < j < |a| && a[i] == x && a[j] == y;
    assert (a + b)[i] == x && (a + b)[j] == y;
  }

  lemma BeforeInSecond(a: seq<Message>, b: seq<Message>, x: Message, y: Message)
    requires Before(b, x, y)
    ensures Before(a + b, x, y)
  {
    var i, j :| 0 <= i < j < |b| && b[i] == x && b[j] == y;
    assert (a + b)[|a| + i] == x && (a + b)[|a| + j] == y;
  }

  lemma BeforeAcross(a: seq<Message>, b: seq<Message>, x: Message, y: Message)
    requires x in a && y in b
    ensures Before(a + b, x, y)
  {
    var i :| 0 <= i < |a| && a[i] == x;
    var j :| 0 <= j < |b| && b[j] == y;
    assert (a + b)[i] == x && (a + b)[|a| + j] == y;
  }

  lemma {:induction false} RowIsRead(metas: seq<Meta>, i: nat)
    requires i < |metas| && Threaded(metas[i])
    ensures MessageOf(metas[i]) in ReadableRows(metas)
  {
    if i < |metas| - 1 { RowIsRead(metas[..|metas| - 1], i); }
  }

  lemma {:induction false} RowsReadInOrder(metas: seq<Meta>, i: nat, j: nat)
    requires i < j < |metas| && Threaded(metas[i]) && Threaded(metas[j])
    ensures Before(ReadableRows(metas), MessageOf(metas[i]), MessageOf(metas[j]))
  {
    var front, last := metas[..|metas| - 1], metas[|metas| - 1];
    if j < |front| {
      RowsReadInOrder(front, i, j);
      BeforeInFirst(ReadableRows(front), ReadableRow(last), MessageOf(metas[i]), MessageOf(metas[j]));
    } else {
      RowIsRead(front, i);
      BeforeAcross(ReadableRows(front), ReadableRow(last), MessageOf(metas[i]), MessageOf(metas[j]));
    }
  }

  lemma {:induction false} FolderIsWalked(account: Account, names: seq<string>, i: nat, x: Message, y: Message)
    requires Readable(account, names) && i < |names| && Before(FolderMessages(account, names[i]), x, y)
    ensures Before(WalkInOrder(account, names), x, y)
  {
    var front, last := names[..|names| - 1], names[|names| - 1];
    if i < |front| {
      FolderIsWalked(account, front, i, x, y);
      BeforeInFirst(WalkInOrder(account, front), FolderMessages(account, last), x, y);
    } else {
      BeforeInSecond(WalkInOrder(account, front), FolderMessages(account, last), x, y);
    }
  }

  /** Of two messages of a folder the one with the lower UID is placed first, however the index lists them. */
  lemma LowerUidWalkedFirst(account: Account, names: seq<string>, name: string, a: Meta, b: Meta)
    requires Readable(account, names) && name in names && name in account && account[name].Some?
    requires a in account[name].value && b in account[name].value && a.uid < b.uid && Threaded(a) && Threaded(b)
    ensures Before(Walk(account, names), MessageOf(a), MessageOf(b))
  {
    var metas, ordered := account[name].value, SortBy(StringLeq, names);
    UidOrderIsTotal();
    var i, j := SortByOrders(UidLeq, metas, a, b);
    RowsReadInOrder(SortBy(UidLeq, metas), i, j);
    SortedReadable(account, names);
    SortByPermutes(StringLeq, names);
    assert name in multiset(ordered);
    var k :| 0 <= k < |ordered| && ordered[k] == name;
    FolderIsWalked(account, ordered, k, MessageOf(a), MessageOf(b));
  }

  lemma {:induction false} MessageIsWalked(account: Account, names: seq<string>, i: nat, x: Message)
    requires Readable(account, names) && i < |names| && x in FolderMessages(account, names[i])
    ensures x in WalkInOrder(account, names)
  {
    if i < |names| - 1 { MessageIsWalked(account, names[..|names| - 1], i, x); }
  }

  lemma {:induction false} FoldersWalkedInOrder(account: Account, names: seq<string>, i: nat, j: nat,
        x: Message, y: Message)
    requires Readable(account, names) && i < j < |names|
    requires x in FolderMessages(account, names[i]) && y in FolderMessages(account, names[j])
    ensures Before(WalkInOrder(account, names), x, y)
  {
    var front, last := names[..|names| - 1], names[|names| - 1];
    if j < |front| {
      FoldersWalkedInOrder(account, front, i, j, x, y);
      BeforeInFirst(WalkInOrder(account, front), FolderMessages(account, last), x, y);
    } else {
      MessageIsWalked(account, front, i, x);
      BeforeAcross(WalkInOrder(account, front), FolderMessages(account, last), x, y);
    }
  }

  lemma InFolder(account: Account, name: string, m: Meta)
    requires name in account && account[name].Some? && m in account[name].value && Threaded(m)
    ensures MessageOf(m) in FolderMessages(account, name)
  {
    var metas := account[name].value;
    SortByPermutes(UidLeq, metas);
    assert m in multiset(SortBy(UidLeq, metas));
    var i :| 0 <= i < |metas| && SortBy(UidLeq, metas)[i] == m;
    RowIsRead(SortBy(UidLeq, metas), i);
  }

  /** Of two messages in different folders the one whose folder's name comes first is. */
  lemma EarlierFolderWalkedFirst(account: Account, names: seq<string>, f: string, g: string, a: Meta, b: Meta)
    requires Readable(account, names) && f in names && g in names && ComesFirst(f, g)
    requires f in account && account[f].Some? && a in account[f].value && Threaded(a)
    requires g in account && account[g].Some? && b in account[g].value && Threaded(b)
    ensures Before(Walk(account, names), MessageOf(a), MessageOf(b))
  {
    StringOrderIsTotal();
    ComesFirstIsStrict(f, g);
    var i, j := SortByOrders(StringLeq, names, f, g);
    SortedReadable(account, names);
    InFolder(account, f, a);
    InFolder(account, g, b);
    FoldersWalkedInOrder(account, SortBy(StringLeq, names), i, j, MessageOf(a), MessageOf(b));
  }

  /**
   * A reply filed behind the message it answers, in the same folder, is in its conversation after a
   * rebuild, if no other message bears the Message-ID it answers.
   */
  lemma RebuildKeepsReply(account: Account, names: seq<string>, name: string, original: Meta, reply: Meta)
    requires Readable(account, names) && name in names && name in account && account[name].Some?
    requires original in account[name].value && reply in account[name].value && original.uid < reply.uid
    requires Threaded(original) && Threaded(reply) && DistinctGUIDs(Walk(account, names))
    requires original.head.value.messageID in RefsOf(reply.head.value)
    requires forall m :: m in Walk(account, names) && m.headers.messageID == original.head.value.messageID ==>
               m.guid == original.guid
    ensures Together(Walk(account, names), original.guid, reply.guid)
  {
    LowerUidWalkedFirst(account, names, name, original, reply);
    ReplyJoinsOriginal(Walk(account, names), MessageOf(original), MessageOf(reply));
  }

  // ----- determinism -----

  ghost predicate DistinctUIDs(metas: seq<Meta>) {
    forall i, j :: 0 <= i < j < |metas| ==> metas[i].uid != metas[j].uid
  }

  /** The same mailbox, whatever order the driver and the index list it in. */
  ghost predicate SameMailbox(a: Account, b: Account) {
    && a.Keys == b.Keys
    && forall name :: name in a ==>
         && a[name].Some? == b[name].Some?
         && (a[name].Some? ==> DistinctUIDs(a[name].value) && multiset(a[name].value) == multiset(b[name].value))
  }

  lemma UidOrderIsTotal()
    ensures TotalOrder(UidLeq)
  {
  }

  lemma SameFolderMessages(a: Account, b: Account, name: string)
    requires SameMailbox(a, b) && name in a && a[name].Some?
    ensures FolderMessages(a, name) == FolderMessages(b, name)
  {
    UidOrderIsTotal();
    assert TiesEqual(UidLeq, a[name].value);
    SortForgetsOrder(UidLeq, a[name].value, b[name].value);
  }

  lemma {:induction false} SameWalkInOrder(a: Account, b: Account, names: seq<string>)
    requires SameMailbox(a, b) && Readable(a, names)
    ensures Readable(b, names) && WalkInOrder(a, names) == WalkInOrder(b, names)
  {
    if names != [] {
      SameWalkInOrder(a, b, names[..|names| - 1]);
      SameFolderMessages(a, b, names[|names| - 1]);
    }
  }

  /** The text a run of placements writes into an empty working file. */
  function Transcript(ms: seq<Message>): string {
    if ms == [] then ""
    else Transcript(Front(ms)) + Render(RecordsOf(PlacementFor(After(Front(ms)), Last(ms).guid, Last(ms).headers)))
  }

  /**
   * Rebuilding twice from one mailbox gives the same placements, the same state and the same file,
   * byte for byte, in whatever order folders and rows are listed.
   */
  lemma RebuildDeterministic(a: Account, b: Account, names: seq<string>, names': seq<string>)
    requires SameMailbox(a, b) && multiset(names) == multiset(names') && Readable(a, names)
    ensures Readable(b, names')
    ensures Walk(a, names) == Walk(b, names')
    ensures After(Walk(a, names)) == After(Walk(b, names'))
    ensures Transcript(Walk(a, names)) == Transcript(Walk(b, names'))
  {
    StringOrderIsTotal();
    forall x: string, y: string | StringLeq(x, y) && StringLeq(y, x)
      ensures x == y
    {
      StringLeqAntisymmetric(x, y);
    }
    SortForgetsOrder(StringLeq, names, names');
    SortedReadable(a, names);
    SameWalkInOrder(a, b, SortBy(StringLeq, names));
    forall i | 0 <= i < |names'|
      ensures names'[i] in names
    {
      assert names'[i] in multiset(names);
    }
  }

  // ----- the rebuilt file -----

  /** Every message of a walk has an identity: rows without one are not read. */
  predicate Named(ms: seq<Message>) {
    forall i :: 0 <= i < |ms| ==> ms[i].guid != ""
  }

  ghost predicate FlatMessage(m: Message) {
    Flat(m.guid) && Flat(m.headers.messageID) && Flat(m.headers.subjectKey)
  }

  ghost predicate FlatMessages(ms: seq<Message>) {
    forall i :: 0 <= i < |ms| ==> FlatMessage(ms[i])
  }

  /** Every line the run writes fits the reader's buffer. */
  predicate ShortMessages(ms: seq<Message>) {
    ms == [] ||
    (ShortMessages(Front(ms)) && Short(RecordsOf(PlacementFor(After(Front(ms)), Last(ms).guid, Last(ms).headers))))
  }

  lemma {:induction false} TranscriptLegible(ms: seq<Message>)
    ensures Complete(Transcript(ms)) && (Legible(Transcript(ms)) <==> ShortMessages(ms))
  {
    if ms == [] {
      LegibleNothing();
    } else {
      var p := PlacementFor(After(Front(ms)), Last(ms).guid, Last(ms).headers);
      TranscriptLegible(Front(ms));
      RecordsOfTags(p);
      RenderParses(Transcript(Front(ms)), RecordsOf(p));
    }
  }

  lemma {:induction false} FlatTranscript(ms: seq<Message>) returns (f: Folded)
    requires Named(ms) && FlatMessages(ms) && ShortMessages(ms)
    ensures FileInStep(Transcript(ms), f) && f.state == After(ms)
  {
    if ms == [] {
      f := NOTHING;
      ParseNothing();
      LegibleNothing();
    } else {
      var p := PlacementFor(After(Front(ms)), Last(ms).guid, Last(ms).headers);
      assert ms[|ms| - 1] == Last(ms) && FlatMessage(ms[|ms| - 1]);
      f := FlatTranscript(Front(ms));
      DeliveredInStep(Transcript(Front(ms)), f, Last(ms).guid, Last(ms).headers);
      WholeAndTail(Transcript(Front(ms)));
      ShortParts(RecordsOf(p));
      f := Appended(f, p);
    }
  }

  lemma {:induction false} TranscriptRecordsFlat(ms: seq<Message>)
    ensures FlatRecords(Parse(Transcript(ms))) && FlatState(Contents(Transcript(ms)).state)
  {
    if ms == [] {
      ParseNothing();
    } else {
      TranscriptRecordsFlat(Front(ms));
      AppendedFileFlat(Transcript(Front(ms)), PlacementFor(After(Front(ms)), Last(ms).guid, Last(ms).headers));
    }
  }

  lemma {:induction false} AfterHolds(ms: seq<Message>, i: nat)
    requires i < |ms|
    ensures var s, m := After(ms), ms[i];
            && m.guid in s.byGUID
            && (m.headers.messageID != "" ==> m.headers.messageID in s.byMessage)
            && (m.headers.subjectKey != "" ==> m.headers.subjectKey in s.bySubject)
  {
    if i < |ms| - 1 {
      AfterHolds(Front(ms), i);
    }
  }

  /** A fresh reader of the file finds this state. */
  predicate Finds(text: string, s: State) {
    Load(text).Some? && Load(text).value.state == s
  }

  /**
   * A reader of the rebuilt file finds the state the rebuild reported, if and only if nothing in it
   * had to be flattened and no line outgrows the reader.
   */
  lemma TranscriptInStepIff(ms: seq<Message>)
    requires Named(ms)
    ensures Finds(Transcript(ms), After(ms)) <==> FlatMessages(ms) && ShortMessages(ms)
  {
    TranscriptLegible(ms);
    if FlatMessages(ms) && ShortMessages(ms) {
      var f := FlatTranscript(ms);
    }
    if Finds(Transcript(ms), After(ms)) {
      TranscriptRecordsFlat(ms);
      forall i | 0 <= i < |ms|
        ensures FlatMessage(ms[i])
      {
        AfterHolds(ms, i);
      }
    }
  }

  lemma {:induction false} RowsNamed(metas: seq<Meta>)
    ensures Named(ReadableRows(metas))
  {
    if metas != [] { RowsNamed(metas[..|metas| - 1]); }
  }

  lemma {:induction false} WalkNamed(account: Account, names: seq<string>)
    requires Readable(account, names)
    ensures Named(WalkInOrder(account, names))
  {
    if names != [] {
      WalkNamed(account, names[..|names| - 1]);
      RowsNamed(SortBy(UidLeq, account[names[|names| - 1]].value));
    }
  }

  /** So for every account: a walk names each of its messages. */
  lemma RebuiltFileInStepIff(account: Account, names: seq<string>)
    requires Readable(account, names)
    ensures var ms := Walk(account, names); Finds(Transcript(ms), After(ms)) <==> FlatMessages(ms) && ShortMessages(ms)
  {
    SortedReadable(account, names);
    WalkNamed(account, SortBy(StringLeq, names));
    TranscriptInStepIff(Walk(account, names));
  }

  // ----- file system steps -----

  datatype Disk = Disk(live: Option<string>, work: Option<string>)
  datatype Step = RemoveWork | AppendWork(text: string) | Install

  function Content(file: Option<string>): string {
    if file.Some? then file.value else ""
  }

  function Do(d: Disk, step: Step): Disk {
    match step
    case RemoveWork => d.(work := None)
    case AppendWork(text) => d.(work := Some(Content(d.work) + text))
    case Install => if d.work.Some? then Disk(d.work, None) else d
  }

  function DoAll(d: Disk, steps: seq<Step>): Disk {
    if steps == [] then d else Do(DoAll(d, steps[..|steps| - 1]), steps[|steps| - 1])
  }

  /** Clearing the working file and filling it. */
  function Fill(ms: seq<Message>): seq<Step> {
    if ms == [] then [RemoveWork]
    else Fill(Front(ms)) +
         [AppendWork(Render(RecordsOf(PlacementFor(After(Front(ms)), Last(ms).guid, Last(ms).headers))))]
  }

  function Rebuild(ms: seq<Message>, dryRun: bool): seq<Step> {
    Fill(ms) + [if dryRun then RemoveWork else Install]
  }

  function WorkingFile(ms: seq<Message>): Option<string> {
    if ms == [] then None else Some(Transcript(ms))
  }

  lemma {:induction false} FillWrites(d: Disk, ms: seq<Message>)
    ensures DoAll(d, Fill(ms)) == Disk(d.live, WorkingFile(ms))
  {
    if ms == [] {
      assert DoAll(d, [RemoveWork]) == Do(DoAll(d, []), RemoveWork);
    } else {
      FillWrites(d, Front(ms));
      assert Fill(ms)[..|Fill(ms)| - 1] == Fill(Front(ms));
    }
  }

  lemma {:induction false} FillLeavesLive(d: Disk, ms: seq<Message>, k: nat)
    requires k <= |Fill(ms)|
    ensures DoAll(d, Fill(ms)[..k]).live == d.live
  {
    if k == |Fill(ms)| {
      assert Fill(ms)[..k] == Fill(ms);
      FillWrites(d, ms);
    } else if ms != [] {
      assert Fill(ms)[..k] == Fill(Front(ms))[..k];
      FillLeavesLive(d, Front(ms), k);
    }
  }

  /** What a complete run leaves: nothing to install is a failed install, and the old file stays. */
  lemma RebuildEnds(d: Disk, ms: seq<Message>, dryRun: bool)
    ensures DoAll(d, Rebuild(ms, dryRun)) == Disk(if dryRun || ms == [] then d.live else Some(Transcript(ms)), None)
  {
    var steps := Rebuild(ms, dryRun);
    assert steps[..|steps| - 1] == Fill(ms);
    FillWrites(d, ms);
  }

  /** Stopped anywhere, whatever an earlier run left behind, the live file is the old one or the complete new one. */
  lemma CrashSafe(d: Disk, ms: seq<Message>, dryRun: bool, k: nat)
    requires k <= |Rebuild(ms, dryRun)|
    ensures var live := DoAll(d, Rebuild(ms, dryRun)[..k]).live;
            live == d.live || (!dryRun && ms != [] && k == |Rebuild(ms, dryRun)| && live == Some(Transcript(ms)))
  {
    var steps := Rebuild(ms, dryRun);
    if k < |steps| {
      assert steps[..k] == Fill(ms)[..k];
      FillLeavesLive(d, ms, k);
    } else {
      assert steps[..k] == steps;
      RebuildEnds(d, ms, dryRun);
    }
  }

  /** A run that finishes after any number of interrupted ones installs what an undisturbed run would. */
  lemma RerunAfterCrash(d: Disk, ms: seq<Message>, k: nat, leftover: Option<string>)
    requires k <= |Rebuild(ms, false)| && ms != []
    ensures var crashed := DoAll(d, Rebuild(ms, false)[..k]).(work := leftover);
            DoAll(crashed, Rebuild(ms, false)) == Disk(Some(Transcript(ms)), None)
  {
    RebuildEnds(DoAll(d, Rebuild(ms, false)[..k]).(work := leftover), ms, false);
  }

  lemma PlacedOneMore(done: seq<Message>, m: Message)
    ensures var p := PlacementFor(After(done), m.guid, m.headers);
            && After(done + [m]) == Apply(After(done), p)
            && WorkingFile(done + [m]) == Some(Content(WorkingFile(done)) + Render(RecordsOf(p)))
  {
    assert Front(done + [m]) == done && Last(done + [m]) == m;
  }

  /** State, working file and append count are those of the messages done. */
  ghost predicate Following(state: State, work: Option<string>, appends: nat, done: seq<Message>) {
    state == After(done) && work == WorkingFile(done) && appends == |done|
  }

  lemma FollowsOneMore(state: State, work: Option<string>, appends: nat, done: seq<Message>, m: Message)
    requires Following(state, work, appends, done)
    ensures var p := PlacementFor(state, m.guid, m.headers);
            Following(Apply(state, p), Some(Content(work) + Render(RecordsOf(p))), appends + 1, done + [m])
  {
    PlacedOneMore(done, m);
  }

  /** The working file is that of the messages done, and a part of a failed append behind it. */
  ghost predicate Leaves(state: State, work: Option<string>, done: seq<Message>, part: string) {
    state == After(done) && Content(work) == Content(WorkingFile(done)) + part
  }

  lemma FollowingLeaves(state: State, work: Option<string>, appends: nat, done: seq<Message>, part: string)
    requires Following(state, work, appends, done)
    ensures Leaves(state, Some(Content(work) + part), done, part) && Leaves(state, work, done, "")
  {
    assert Content(work) + "" == Content(work);
  }

  lemma RowsOneMore(metas: seq<Meta>, j: nat)
    requires j < |metas|
    ensures ReadableRows(metas[..j + 1]) == ReadableRows(metas[..j]) + ReadableRow(metas[j])
  {
    assert metas[..j + 1][..j] == metas[..j];
  }

  lemma WalkOneMore(account: Account, names: seq<string>, i: nat)
    requires i < |names| && Readable(account, names[..i]) && names[i] in account && account[names[i]].Some?
    ensures Readable(account, names[..i + 1])
    ensures WalkInOrder(account, names[..i + 1]) == WalkInOrder(account, names[..i]) + FolderMessages(account, names[i])
    ensures RowCount(account, names[..i + 1]) == RowCount(account, names[..i]) + |account[names[i]].value|
  {
    assert names[..i + 1][..i] == names[..i];
    assert names[..i + 1] == names[..i] + [names[i]];
  }

  // ----- the tool -----

  datatype Outcome = Skipped | Built | WouldBuild | Failed

  function ThreadCount(s: State): nat {
    |Threads(s)|
  }

  class Backfill {
    var live: Option<string>
    var work: Option<string>
    var users: nat
    var skipped: nat
    var folders: nat
    var messages: nat
    var threads: nat
    var unreadable: nat

    function OnDisk(): Disk
      reads this
    {
      Disk(live, work)
    }

    /** One readable row: place it and append the placement. A failed append leaves `part` of itself. */
    method ThreadRow(m: Message, from: State, appended: nat, failAt: int, written: nat, ghost before: seq<Message>)
      returns (ok: bool, state: State, ghost part: string)
      requires Following(from, work, appended, before)
      modifies this`work
      ensures ok <==> appended != failAt
      ensures ok ==> Following(state, work, appended + 1, before + [m])
      ensures !ok ==> Leaves(state, work, before, part)
    {
      var p := Place(from, m.guid, m.headers);
      var lines := Render(RecordsOf(p));
      state, ok, part := from, appended != failAt, "";
      if !ok {
        part := lines[..Min(written, |lines|)];
        FollowingLeaves(from, work, appended, before, part);
        work := Some(Content(work) + lines[..Min(written, |lines|)]);
        return;
      }
      FollowsOneMore(from, work, appended, before, m);
      work := Some(Content(work) + lines);
      state := Apply(from, p);
    }

    /** The inner loop of `buildSidecar`: one folder's rows, already in UID order. */
    method ThreadFolder(metas: seq<Meta>, from: State, appended: nat, failAt: int, written: nat,
          ghost before: seq<Message>)
      returns (ok: bool, state: State, appends: nat, ghost done: seq<Message>, ghost part: string)
      requires Following(from, work, appended, before)
      modifies this`work, this`messages, this`unreadable
      ensures ok ==> Following(state, work, appends, done)
      ensures Leaves(state, work, done, part)
      ensures ok ==> done == before + ReadableRows(metas)
      ensures ok ==> messages == old(messages) + |done| - |before|
      ensures ok ==> messages + unreadable == old(messages) + old(unreadable) + |metas|
      ensures failAt < 0 ==> ok
    {
      state, appends, done, ok, part := from, appended, before, false, "";
      ghost var rows := [];
      for j := 0 to |metas|
        invariant rows == ReadableRows(metas[..j]) && done == before + rows
        invariant Following(state, work, appends, done)
        invariant messages == old(messages) + |rows|
        invariant messages + unreadable == old(messages) + old(unreadable) + j
      {
        var m := metas[j];
        RowsOneMore(metas, j);
        if m.guid == "" || m.head.None? {
          unreadable := unreadable + 1;
        } else {
          messages := messages + 1;
          var placed := Message(m.guid, m.head.value);
          Regroup(before, rows, [placed]);
          ok, state, part := ThreadRow(placed, state, appends, failAt, written, done);
          if !ok { return; }
          rows, done, appends := rows + [placed], done + [placed], appends + 1;
        }
      }
      assert metas[..|metas|] == metas;
      part := "";
      FollowingLeaves(state, work, appends, done, "");
      ok := true;
    }

    /** The walk of `buildSidecar` over folders already in order. */
    method ThreadFolders(account: Account, ordered: seq<string>, failAt: int, written: nat)
      returns (ok: bool, state: State, ghost done: seq<Message>, ghost part: string)
      modifies this`work, this`folders, this`messages, this`unreadable
      ensures ok ==> Readable(account, ordered) && done == WalkInOrder(account, ordered) && work == WorkingFile(done)
      ensures Leaves(state, work, done, part)
      ensures ok ==> folders == old(folders) + |ordered| && messages == old(messages) + |done|
      ensures ok ==> messages + unreadable == old(messages) + old(unreadable) + RowCount(account, ordered)
      ensures Readable(account, ordered) && failAt < 0 ==> ok
    {
      var appends := 0;
      state, done, ok, part := EMPTY, [], false, "";
      work := None;
      for i := 0 to |ordered|
        invariant Readable(account, ordered[..i])
        invariant done == WalkInOrder(account, ordered[..i])
        invariant Following(state, work, appends, done)
        invariant folders == old(folders) + i
        invariant messages == old(messages) + |done|
        invariant messages + unreadable == old(messages) + old(unreadable) + RowCount(account, ordered[..i])
      {
        folders := folders + 1;
        var name := ordered[i];
        if name !in account || account[name].None? {
          assert !Readable(account, ordered);
          FollowingLeaves(state, work, appends, done, "");
          part := "";
          return;
        }
        WalkOneMore(account, ordered, i);
        var metas := SortBy(UidLeq, account[name].value);
        SortByPermutes(UidLeq, account[name].value);
        var read;
        read, state, appends, done, part := ThreadFolder(metas, state, appends, failAt, written, done);
        if !read {
          return;
        }
      }
      assert ordered[..|ordered|] == ordered;
      part := "";
      FollowingLeaves(state, work, appends, done, "");
      ok := true;
    }

    /** `buildSidecar`: folders in name order, rows in UID order, one append per readable message. */
    method BuildSidecar(account: Account, names: seq<string>, failAt: int, written: nat)
      returns (ok: bool, state: State, ghost done: seq<Message>, ghost part: string)
      modifies this`work, this`folders, this`messages, this`unreadable
      ensures ok ==> Readable(account, names) && done == Walk(account, names) && work == WorkingFile(done)
      ensures ok ==> folders == old(folders) + |names| && messages == old(messages) + |done|
      ensures ok ==> messages + unreadable == old(messages) + old(unreadable) + RowCount(account, names)
      ensures Leaves(state, work, done, part)
      ensures Readable(account, names) && failAt < 0 ==> ok
    {
      var ordered := SortBy(StringLeq, names);
      SortByPermutes(StringLeq, names);
      if Readable(account, names) { SortedReadable(account, names); }
      ok, state, done, part := ThreadFolders(account, ordered, failAt, written);
      if ok {
        UnsortedReadable(account, names);
        RowCountSorted(account, names);
      }
    }

    /** The end of `threadUserLocked`: count, then drop the working file or rename it over the live one. */
    method Finish(state: State, dryRun: bool) returns (outcome: Outcome)
      modifies this`live, this`work, this`users, this`threads
      ensures outcome == if dryRun then WouldBuild else if old(work).Some? then Built else Failed
      ensures OnDisk() == if dryRun then Disk(old(live), None) else Do(old(OnDisk()), Install)
      ensures users == old(users) + 1 && threads == old(threads) + ThreadCount(state)
    {
      users := users + 1;
      threads := threads + |Threads(state)|;
      if dryRun {
        work := None;
        return WouldBuild;
      }
      if work.None? { return Failed; }
      live, work := work, None;
      return Built;
    }

    /** `threadUserLocked`, with the account lock held; `done` is what it placed. */
    method ThreadUser(account: Account, names: seq<string>, force: bool, dryRun: bool, failAt: int, written: nat)
      returns (outcome: Outcome, ghost state: State, ghost done: seq<Message>)
      modifies this
      ensures outcome == Skipped <==> !force && old(live).Some?
      ensures outcome == Skipped ==> OnDisk() == old(OnDisk()) && skipped == old(skipped) + 1
      ensures outcome == Skipped ==>
                && unchanged(`users) && unchanged(`folders) && unchanged(`messages)
                && unchanged(`threads) && unchanged(`unreadable)
      ensures outcome != Skipped ==> skipped == old(skipped)
      ensures outcome == Built ==> done != [] && OnDisk() == Disk(Some(Transcript(done)), None)
      ensures outcome == WouldBuild ==> OnDisk() == Disk(old(live), None)
      ensures outcome == Failed ==> live == old(live)
      ensures outcome == Built || outcome == WouldBuild ==>
                && Readable(account, names) && done == Walk(account, names) && state == After(done)
                && dryRun == (outcome == WouldBuild)
      ensures outcome == Built || outcome == WouldBuild ==>
                && users == old(users) + 1 && folders == old(folders) + |names|
                && messages == old(messages) + |done| && threads == old(threads) + ThreadCount(state)
                && messages + unreadable == old(messages) + old(unreadable) + RowCount(account, names)
      ensures outcome == Failed ==> users == old(users) || users == old(users) + 1
      ensures outcome == Failed && users == old(users) ==> threads == old(threads)
      ensures outcome == Failed && users != old(users) ==>
                !dryRun && Readable(account, names) && Walk(account, names) == []
      ensures outcome == Failed && Readable(account, names) && failAt < 0 ==> !dryRun && Walk(account, names) == []
    {
      outcome, state, done := Skipped, EMPTY, [];
      if !force && live.Some? {
        skipped := skipped + 1;
        return;
      }
      ghost var part;
      var ok, built;
      ok, built, done, part := BuildSidecar(account, names, failAt, written);
      state := built;
      if ok {
        outcome := Finish(built, dryRun);
      } else {
        outcome := Failed;
      }
    }
  }

  lemma UnsortedReadable(account: Account, names: seq<string>)
    requires Readable(account, SortBy(StringLeq, names))
    ensures Readable(account, names)
  {
    var ordered := SortBy(StringLeq, names);
    SortByPermutes(StringLeq, names);
    forall i | 0 <= i < |names|
      ensures names[i] in ordered
    {
      assert names[i] in multiset(ordered);
    }
  }
}
