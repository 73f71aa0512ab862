/** Writing an imported mailbox: folders created once, a fresh UID per message, flags split in two. */
module ImportWriter {
  import opened Basics
  import opened Order

  datatype Message = Message(folder: string, body: string, flags: seq<string>, date: int, guid: string)

  datatype Meta = Meta(uid: nat, flags: seq<string>, keywords: seq<string>, body: string, date: int, guid: string)

  const MODULUS := 0x1_0000_0000

  type Uint32 = n: nat | n < 0x1_0000_0000

  /** A folder and its counter: the next UID to hand out. */
  datatype Box = Box(next: Uint32, messages: seq<Meta>)

  type Boxes = map<string, Box>

  // ---------------------------------------------------------------- flags

  predicate IsSystem(flag: string) { flag != "" && flag[0] == '\\' }

  predicate IsKeyword(flag: string) { !IsSystem(flag) }

  method SplitFlags(all: seq<string>) returns (flags: seq<string>, keywords: seq<string>)
    ensures flags == Filter(IsSystem, all)
    ensures keywords == Filter(IsKeyword, all)
  {
    flags, keywords := [], [];
    for i := 0 to |all|
      invariant flags == Filter(IsSystem, all[..i])
      invariant keywords == Filter(IsKeyword, all[..i])
    {
      assert all[..i + 1] == all[..i] + [all[i]];
      FilterConcat(IsSystem, all[..i], [all[i]]);
      FilterConcat(IsKeyword, all[..i], [all[i]]);
      if IsSystem(all[i]) {
        flags := flags + [all[i]];
      } else {
        keywords := keywords + [all[i]];
      }
    }
    assert all[..|all|] == all;
  }

  /** The two lists together are the one list: nothing lost, nothing doubled, nothing misfiled. */
  lemma {:induction false} SplitLosesNothing(all: seq<string>)
    ensures multiset(Filter(IsSystem, all)) + multiset(Filter(IsKeyword, all)) == multiset(all)
  {
    if all != [] {
      SplitLosesNothing(all[1..]);
      assert all == [all[0]] + all[1..];
    }
  }

  // ---------------------------------------------------------------- what a run should write

  function BoxOf(boxes: Boxes, folder: string): Box {
    if folder in boxes then boxes[folder] else Box(1, [])
  }

  /** The next UID, with zero standing for a box that never had one. */
  function Assigned(box: Box): (uid: Uint32)
    ensures uid > 0
  {
    if box.next == 0 then 1 else box.next
  }

  function Stamp(uid: nat, m: Message): Meta {
    Meta(uid, Filter(IsSystem, m.flags), Filter(IsKeyword, m.flags), m.body, m.date, m.guid)
  }

  /** A 32-bit counter stepped past its end reads zero. */
  function Step(uid: Uint32): Uint32 {
    if uid + 1 == MODULUS then 0 else uid + 1
  }

  function Allocate(box: Box): Box {
    box.(next := Step(Assigned(box)))
  }

  function Put(boxes: Boxes, m: Message): Boxes {
    var box := BoxOf(boxes, m.folder);
    boxes[m.folder := Allocate(box).(messages := box.messages + [Stamp(Assigned(box), m)])]
  }

  function PutAll(boxes: Boxes, ms: seq<Message>): Boxes {
    if ms == [] then boxes else Put(PutAll(boxes, ms[..|ms| - 1]), ms[|ms| - 1])
  }

  function Into(folder: string, ms: seq<Message>): seq<Message> {
    Filter((m: Message) => m.folder == folder, ms)
  }

  /** The UID a counter hands out on its i-th further call: upwards, and from the end back to one. */
  function UidAt(first: Uint32, i: nat): (uid: Uint32)
    requires first > 0
    ensures uid > 0
  {
    if i == 0 then first
    else if UidAt(first, i - 1) + 1 == MODULUS then 1
    else UidAt(first, i - 1) + 1
  }

  /** Within one lap of the counter. */
  lemma {:induction false} UidWithinLap(first: Uint32, i: nat)
    requires first > 0 && i < MODULUS
    ensures UidAt(first, i) == if first + i < MODULUS then first + i else first + i - (MODULUS - 1)
  {
    if i > 0 { UidWithinLap(first, i - 1); }
  }

  /** Messages numbered by the counter, from a first UID. */
  function Numbered(first: Uint32, ms: seq<Message>): (metas: seq<Meta>)
    requires first > 0
    ensures |metas| == |ms|
    ensures forall i :: 0 <= i < |ms| ==> metas[i] == Stamp(UidAt(first, i), ms[i])
  {
    if ms == [] then [] else Numbered(first, ms[..|ms| - 1]) + [Stamp(UidAt(first, |ms| - 1), ms[|ms| - 1])]
  }

  lemma IntoLast(folder: string, ms: seq<Message>)
    requires ms != []
    ensures var front, last := ms[..|ms| - 1], ms[|ms| - 1];
            Into(folder, ms) == Into(folder, front) + if last.folder == folder then [last] else []
  {
    var front, last := ms[..|ms| - 1], ms[|ms| - 1];
    assert ms == front + [last];
    FilterConcat((m: Message) => m.folder == folder, front, [last]);
  }

  lemma NumberedLast(first: Uint32, ms: seq<Message>, m: Message)
    requires first > 0
    ensures Numbered(first, ms + [m]) == Numbered(first, ms) + [Stamp(UidAt(first, |ms|), m)]
  {
    assert (ms + [m])[..|ms|] == ms;
  }

  /** What a folder looks like after receiving these messages. */
  predicate Received(before: Box, after: Box, mine: seq<Message>) {
    && after.messages == before.messages + Numbered(Assigned(before), mine)
    && after.next == if mine == [] then before.next else Step(UidAt(Assigned(before), |mine| - 1))
  }

  lemma ReceivesOne(before: Box, mid: Box, after: Box, mine: seq<Message>, m: Message)
    requires Received(before, mid, mine)
    requires after == Allocate(mid).(messages := mid.messages + [Stamp(Assigned(mid), m)])
    ensures Received(before, after, mine + [m])
  {
    NumberedLast(Assigned(before), mine, m);
    assert Assigned(mid) == UidAt(Assigned(before), |mine|);
    Regroup(before.messages, Numbered(Assigned(before), mine), [Stamp(Assigned(mid), m)]);
  }

  /**
   * Folder by folder, a run appends the folder's messages in source order under the UIDs its counter
   * hands out one after another, and touches nothing that was there.
   */
  lemma {:induction false} FolderReceives(boxes: Boxes, ms: seq<Message>, folder: string)
    ensures Received(BoxOf(boxes, folder), BoxOf(PutAll(boxes, ms), folder), Into(folder, ms))
    decreases |ms|
  {
    if ms != [] {
      var front, last := ms[..|ms| - 1], ms[|ms| - 1];
      IntoLast(folder, ms);
      FolderReceives(boxes, front, folder);
      var mid := PutAll(boxes, front);
      if last.folder == folder {
        ReceivesOne(BoxOf(boxes, folder), BoxOf(mid, folder), BoxOf(Put(mid, last), folder), Into(folder, front), last);
      }
    }
  }

  /** How many of these messages go into this folder. */
  function CountFor(folder: string, ms: seq<Message>): nat {
    if ms == [] then 0 else CountFor(folder, ms[..|ms| - 1]) + if ms[|ms| - 1].folder == folder then 1 else 0
  }

  lemma {:induction false} IntoCount(folder: string, ms: seq<Message>)
    ensures |Into(folder, ms)| == CountFor(folder, ms)
  {
    if ms != [] {
      IntoLast(folder, ms);
      IntoCount(folder, ms[..|ms| - 1]);
    }
  }

  /** Nothing of the message is lost or altered, and a flag is a system flag exactly if it starts with a backslash. */
  ghost predicate Faithful(meta: Meta, m: Message) {
    && meta.body == m.body && meta.date == m.date && meta.guid == m.guid
    && forall f: string ::
         && multiset(meta.flags)[f] == (if HasPrefix(f, "\\") then multiset(m.flags)[f] else 0)
         && multiset(meta.keywords)[f] == (if HasPrefix(f, "\\") then 0 else multiset(m.flags)[f])
  }

  lemma StampFaithful(uid: nat, m: Message)
    ensures Faithful(Stamp(uid, m), m)
  {
    forall f: string
      ensures multiset(Filter(IsSystem, m.flags))[f] == (if HasPrefix(f, "\\") then multiset(m.flags)[f] else 0)
      ensures multiset(Filter(IsKeyword, m.flags))[f] == (if HasPrefix(f, "\\") then 0 else multiset(m.flags)[f])
    {
      FilterCount(IsSystem, m.flags, f);
      FilterCount(IsKeyword, m.flags, f);
      if f != "" { assert f[..1] == [f[0]]; }
    }
  }

  /** The first UID a run gives out in a folder: one in a new folder, or in one that never had a message. */
  function First(boxes: Boxes, folder: string): nat {
    if folder in boxes && boxes[folder].next != 0 then boxes[folder].next else 1
  }

  /** Every message of a run ends up in its folder, unaltered, behind what was there and the run's earlier ones. */
  lemma MessageArrives(boxes: Boxes, ms: seq<Message>, j: nat)
    requires j < |ms|
    ensures var before, after := BoxOf(boxes, ms[j].folder), BoxOf(PutAll(boxes, ms), ms[j].folder);
            var at := |before.messages| + CountFor(ms[j].folder, ms[..j]);
            && at < |after.messages| == |before.messages| + CountFor(ms[j].folder, ms)
            && after.messages[..|before.messages|] == before.messages
            && Faithful(after.messages[at], ms[j])
            && (First(boxes, ms[j].folder) + CountFor(ms[j].folder, ms[..j]) < 0x1_0000_0000 ==>
                  after.messages[at].uid == First(boxes, ms[j].folder) + CountFor(ms[j].folder, ms[..j]))
  {
    var folder, before := ms[j].folder, BoxOf(boxes, ms[j].folder);
    FolderReceives(boxes, ms, folder);
    IntoCount(folder, ms);
    IntoCount(folder, ms[..j]);
    IntoAt(ms, j);
    if Assigned(before) + CountFor(folder, ms[..j]) < MODULUS {
      UidWithinLap(Assigned(before), CountFor(folder, ms[..j]));
    }
    StampFaithful(UidAt(Assigned(before), CountFor(folder, ms[..j])), ms[j]);
  }

  lemma IntoAt(ms: seq<Message>, j: nat)
    requires j < |ms|
    ensures var earlier, all := Into(ms[j].folder, ms[..j]), Into(ms[j].folder, ms);
            |earlier| < |all| && all[|earlier|] == ms[j]
  {
    var folder := ms[j].folder;
    var mine := (m: Message) => m.folder == folder;
    assert ms == ms[..j] + ms[j..];
    FilterConcat(mine, ms[..j], ms[j..]);
    assert Filter(mine, ms[j..]) == [ms[j]] + Filter(mine, ms[j..][1..]);
  }

  /** Every UID in use lies below the counter. */
  predicate Counted(box: Box) {
    forall m :: m in box.messages ==> m.uid < Assigned(box)
  }

  /** The box can number this many more messages before its 32-bit counter wraps. */
  predicate Room(box: Box, count: nat) {
    Assigned(box) + count <= MODULUS
  }

  /** Every message past the first `kept` has a higher UID than every message before it. */
  predicate Ascending(metas: seq<Meta>, kept: nat) {
    forall i, j :: 0 <= i < j < |metas| && kept <= j ==> metas[i].uid < metas[j].uid
  }

  lemma NewUid(before: Box, after: Box, mine: seq<Message>, i: nat)
    requires Received(before, after, mine) && i < |mine| && i < MODULUS
    ensures var first := Assigned(before);
            |before.messages| + i < |after.messages| &&
            after.messages[|before.messages| + i].uid
              == if first + i < MODULUS then first + i else first + i - (MODULUS - 1)
  {
    UidWithinLap(Assigned(before), i);
  }

  lemma OldMessage(before: Box, after: Box, mine: seq<Message>, i: nat)
    requires Received(before, after, mine) && i < |before.messages|
    ensures i < |after.messages| && after.messages[i] == before.messages[i] && after.messages[i] in before.messages
  {
  }

  /**
   * New UIDs are above every earlier one of their folder, if and only if there are none, or the
   * counter is above those in use and has room.
   */
  lemma NewUidsAscendIff(boxes: Boxes, ms: seq<Message>, folder: string)
    ensures var before, after, mine := BoxOf(boxes, folder), BoxOf(PutAll(boxes, ms), folder), Into(folder, ms);
            Ascending(after.messages, |before.messages|) <==> mine == [] || (Counted(before) && Room(before, |mine|))
  {
    FolderReceives(boxes, ms, folder);
    ReceivedAscendIff(BoxOf(boxes, folder), BoxOf(PutAll(boxes, ms), folder), Into(folder, ms));
  }

  lemma ReceivedAscendIff(before: Box, after: Box, mine: seq<Message>)
    requires Received(before, after, mine)
    ensures Ascending(after.messages, |before.messages|) <==> mine == [] || (Counted(before) && Room(before, |mine|))
  {
    var kept, first := |before.messages|, Assigned(before);
    if mine == [] {
    } else if !Counted(before) {
      var m :| m in before.messages && m.uid >= first;
      var i :| 0 <= i < kept && before.messages[i] == m;
      OldMessage(before, after, mine, i);
      NewUid(before, after, mine, 0);
      assert after.messages[i].uid >= after.messages[kept].uid;
    } else if Room(before, |mine|) {
      forall i, j | 0 <= i < j < |after.messages| && kept <= j
        ensures after.messages[i].uid < after.messages[j].uid
      {
        NewUid(before, after, mine, j - kept);
        if i < kept { OldMessage(before, after, mine, i); } else { NewUid(before, after, mine, i - kept); }
      }
    } else {
      var k := MODULUS - first;
      NewUid(before, after, mine, k - 1);
      NewUid(before, after, mine, k);
      assert after.messages[kept + k - 1].uid > after.messages[kept + k].uid;
    }
  }

  predicate DistinctUids(metas: seq<Meta>) {
    forall i, j :: 0 <= i < j < |metas| ==> metas[i].uid != metas[j].uid
  }

  /** The UIDs a counter hands out from here: those up to its end, and from one again. */
  predicate HandsOut(box: Box, count: nat, uid: int) {
    var first := Assigned(box);
    (first <= uid < MODULUS && uid < first + count) || 1 <= uid <= first + count - MODULUS
  }

  /** The counter does not come full circle, and comes past no UID a message holds. */
  predicate NoneReused(box: Box, count: nat) {
    count < MODULUS && forall m :: m in box.messages ==> !HandsOut(box, count, m.uid)
  }

  lemma HandedOut(before: Box, after: Box, mine: seq<Message>, i: nat)
    requires Received(before, after, mine) && i < |mine| < MODULUS
    ensures |before.messages| + i < |after.messages|
    ensures HandsOut(before, |mine|, after.messages[|before.messages| + i].uid)
  {
    NewUid(before, after, mine, i);
  }

  lemma ReceivedDistinct(before: Box, after: Box, mine: seq<Message>, i: nat, j: nat)
    requires Received(before, after, mine) && DistinctUids(before.messages)
    requires NoneReused(before, |mine|) && i < j < |after.messages|
    ensures after.messages[i].uid != after.messages[j].uid
  {
    var kept := |before.messages|;
    if j < kept {
      OldMessage(before, after, mine, i);
      OldMessage(before, after, mine, j);
    } else if i < kept {
      OldMessage(before, after, mine, i);
      HandedOut(before, after, mine, j - kept);
    } else {
      NewUid(before, after, mine, i - kept);
      NewUid(before, after, mine, j - kept);
    }
  }

  lemma ReusedRepeats(before: Box, after: Box, mine: seq<Message>)
    requires Received(before, after, mine) && !NoneReused(before, |mine|)
    ensures !DistinctUids(after.messages)
  {
    var kept, first := |before.messages|, Assigned(before);
    if |mine| >= MODULUS {
      NewUid(before, after, mine, 0);
      NewUid(before, after, mine, MODULUS - 1);
      assert after.messages[kept].uid == after.messages[kept + (MODULUS - 1)].uid;
    } else {
      var m :| m in before.messages && HandsOut(before, |mine|, m.uid);
      var i :| 0 <= i < kept && before.messages[i] == m;
      var j := if m.uid >= first then m.uid - first else MODULUS - first + m.uid - 1;
      OldMessage(before, after, mine, i);
      NewUid(before, after, mine, j);
      assert after.messages[i].uid == after.messages[kept + j].uid;
    }
  }

  lemma OldDistinct(before: Box, after: Box, mine: seq<Message>)
    requires Received(before, after, mine) && DistinctUids(after.messages)
    ensures DistinctUids(before.messages)
  {
    forall i, j | 0 <= i < j < |before.messages|
      ensures before.messages[i].uid != before.messages[j].uid
    {
      OldMessage(before, after, mine, i);
      OldMessage(before, after, mine, j);
    }
  }

  /** No UID of the folder is in use twice, if and only if none was, and none a message holds is handed out again. */
  lemma UidsStayDistinctIff(boxes: Boxes, ms: seq<Message>, folder: string)
    ensures var before, after := BoxOf(boxes, folder), BoxOf(PutAll(boxes, ms), folder);
            DistinctUids(after.messages) <==> DistinctUids(before.messages) && NoneReused(before, |Into(folder, ms)|)
  {
    FolderReceives(boxes, ms, folder);
    var before, after, mine := BoxOf(boxes, folder), BoxOf(PutAll(boxes, ms), folder), Into(folder, ms);
    if DistinctUids(before.messages) && NoneReused(before, |mine|) {
      forall i, j | 0 <= i < j < |after.messages|
        ensures after.messages[i].uid != after.messages[j].uid
      {
        ReceivedDistinct(before, after, mine, i, j);
      }
    }
    if DistinctUids(after.messages) {
      OldDistinct(before, after, mine);
      if !NoneReused(before, |mine|) { ReusedRepeats(before, after, mine); }
    }
  }

  // ---------------------------------------------------------------- the run

  /** An unopened folder and an opened empty one hold the same. */
  ghost predicate SameBoxes(a: Boxes, b: Boxes) {
    forall f :: BoxOf(a, f) == BoxOf(b, f)
  }

  ghost predicate SameMail(a: Boxes, b: Boxes) {
    forall f :: BoxOf(a, f).messages == BoxOf(b, f).messages
  }

  lemma PutSame(a: Boxes, b: Boxes, m: Message)
    requires SameBoxes(a, b)
    ensures SameBoxes(Put(a, m), Put(b, m))
  {
    assert BoxOf(a, m.folder) == BoxOf(b, m.folder);
    assert forall f :: f != m.folder ==> BoxOf(Put(a, m), f) == BoxOf(a, f) && BoxOf(Put(b, m), f) == BoxOf(b, f);
  }

  lemma SameMailThrough(a: Boxes, b: Boxes, c: Boxes)
    requires SameMail(a, b) && SameBoxes(b, c)
    ensures SameMail(a, c)
  {
    assert forall f :: BoxOf(b, f) == BoxOf(c, f);
  }

  lemma SameBoxesThrough(a: Boxes, b: Boxes, c: Boxes)
    requires SameBoxes(a, b) && SameBoxes(b, c)
    ensures SameBoxes(a, c)
  {
    assert forall f :: BoxOf(b, f) == BoxOf(c, f);
  }

  lemma {:induction false} PutAllSame(a: Boxes, b: Boxes, ms: seq<Message>)
    requires SameBoxes(a, b)
    ensures SameBoxes(PutAll(a, ms), PutAll(b, ms))
    decreases |ms|
  {
    if ms != [] {
      PutAllSame(a, b, ms[..|ms| - 1]);
      PutSame(PutAll(a, ms[..|ms| - 1]), PutAll(b, ms[..|ms| - 1]), ms[|ms| - 1]);
    }
  }

  lemma PutAllLast(boxes: Boxes, ms: seq<Message>, m: Message)
    ensures PutAll(boxes, ms + [m]) == Put(PutAll(boxes, ms), m)
  {
    var all := ms + [m];
    assert all[..|all| - 1] == ms && all[|all| - 1] == m;
  }

  lemma PutOneMore(after: Boxes, before: Boxes, start: Boxes, ms: seq<Message>, m: Message)
    requires SameBoxes(before, PutAll(start, ms)) && SameBoxes(after, Put(before, m))
    ensures SameBoxes(after, PutAll(start, ms + [m]))
  {
    PutSame(before, PutAll(start, ms), m);
    PutAllLast(start, ms, m);
    SameBoxesThrough(after, Put(before, m), Put(PutAll(start, ms), m));
  }

  function Normalised(nfc: string -> string, ms: seq<Message>): (r: seq<Message>)
    ensures |r| == |ms|
    ensures forall i :: 0 <= i < |ms| ==> r[i] == ms[i].(folder := nfc(ms[i].folder))
  {
    seq(|ms|, i requires 0 <= i < |ms| => ms[i].(folder := nfc(ms[i].folder)))
  }

  function FoldersOf(ms: seq<Message>): set<string> {
    set m | m in ms :: m.folder
  }

  function NamesOf(nfc: string -> string, names: seq<string>): set<string> {
    set n | n in names :: nfc(n)
  }

  lemma NormalisedGrows(nfc: string -> string, ms: seq<Message>, i: nat)
    requires i < |ms|
    ensures var m := ms[i].(folder := nfc(ms[i].folder));
            && Normalised(nfc, ms[..i + 1]) == Normalised(nfc, ms[..i]) + [m]
            && FoldersOf(Normalised(nfc, ms[..i + 1])) == FoldersOf(Normalised(nfc, ms[..i])) + {m.folder}
            && FoldersOf(Normalised(nfc, ms[..i + 1])) <= FoldersOf(Normalised(nfc, ms))
  {
    var m := ms[i].(folder := nfc(ms[i].folder));
    var before, after, all := Normalised(nfc, ms[..i]), Normalised(nfc, ms[..i + 1]), Normalised(nfc, ms);
    assert after == before + [m];
    assert after == all[..i + 1];
    assert forall x :: x in after ==> x in all;
  }

  /** Each known folder but INBOX was created by this run, and created once. */
  predicate CreatedOnce(created: seq<string>, known: set<string>) {
    && (forall i, j :: 0 <= i < j < |created| ==> created[i] != created[j])
    && "INBOX" !in created
    && (set n | n in created) + {"INBOX"} == known
  }

  lemma CreateAnother(created: seq<string>, known: set<string>, name: string)
    requires CreatedOnce(created, known) && name !in known
    ensures CreatedOnce(created + [name], known + {name})
  {
    assert (set n | n in created + [name]) == (set n | n in created) + {name};
  }

  /** One user's import: the destination it writes and the maps the visitor keeps. Call `failAt` fails. */
  class Migration {
    const failAt: int
    const dry: bool
    var calls: nat
    var boxes: Boxes
    var created: seq<string>
    var allocations: nat
    var known: set<string>
    var handles: set<string>
    var migrated: nat
    var skipped: nat

    constructor (failAt: int, dry: bool, boxes: Boxes)
      ensures this.failAt == failAt && this.dry == dry && this.boxes == boxes
      ensures created == [] && known == {"INBOX"} && handles == {} && CreatedOnce(created, known)
      ensures calls == allocations == migrated == skipped == 0
    {
      this.failAt, this.dry, this.boxes := failAt, dry, boxes;
      created, known, handles := [], {"INBOX"}, {};
      calls, allocations, migrated, skipped := 0, 0, 0, 0;
    }

    method Call() returns (ok: bool)
      modifies `calls
      ensures ok <==> old(calls) != failAt
      ensures calls == old(calls) + 1
    {
      ok := calls != failAt;
      calls := calls + 1;
    }

    /** None of the calls made since then is the one that fails. */
    predicate Unfailed(since: nat)
      reads `calls
    {
      !(since <= failAt < calls)
    }

    method CreateFolder(name: string) returns (ok: bool)
      requires CreatedOnce(created, known)
      modifies `calls, `created, `known
      ensures CreatedOnce(created, known)
      ensures ok <==> Unfailed(old(calls))
      ensures calls == old(calls) + if name in old(known) then 0 else 1
      ensures ok ==> known == old(known) + {name}
      ensures !ok ==> known == old(known) && created == old(created)
    {
      if name in known {
        return true;
      }
      ok := Call();
      if ok {
        CreateAnother(created, known, name);
        created, known := created + [name], known + {name};
      }
    }

    method OpenFolder(name: string) returns (ok: bool)
      modifies `calls, `boxes
      ensures calls == old(calls) + 1 && (ok <==> Unfailed(old(calls)))
      ensures SameBoxes(boxes, old(boxes))
      ensures boxes.Keys == old(boxes).Keys + if ok then {name} else {}
    {
      ok := Call();
      if ok && name !in boxes {
        boxes := boxes[name := Box(1, [])];
      }
    }

    method AllocateUID(name: string) returns (ok: bool, uid: Uint32)
      modifies `calls, `boxes, `allocations
      ensures calls == old(calls) + 1 && (ok <==> Unfailed(old(calls)))
      ensures SameMail(boxes, old(boxes))
      ensures old(boxes).Keys <= boxes.Keys
      ensures ok ==> boxes == old(boxes)[name := Allocate(BoxOf(old(boxes), name))]
      ensures ok ==> uid == Assigned(BoxOf(old(boxes), name)) && allocations == old(allocations) + 1
      ensures !ok ==> boxes == old(boxes) && allocations == old(allocations)
    {
      uid := 0;
      ok := Call();
      if ok {
        var box := BoxOf(boxes, name);
        uid := Assigned(box);
        boxes := boxes[name := Allocate(box)];
        allocations := allocations + 1;
      }
    }

    /** Save, name and append: the destination changes only when the last of them succeeds. */
    method Append(name: string, meta: Meta) returns (ok: bool)
      requires name in boxes
      modifies `calls, `boxes
      ensures (ok <==> Unfailed(old(calls))) && (ok ==> calls == old(calls) + 3)
      ensures old(calls) < calls <= old(calls) + 3
      ensures boxes == if ok then old(boxes)[name := old(boxes)[name].(messages := old(boxes)[name].messages + [meta])]
                       else old(boxes)
    {
      ok := Call();
      if ok {
        ok := Call();
      }
      if ok {
        ok := Call();
      }
      if ok {
        boxes := boxes[name := boxes[name].(messages := boxes[name].messages + [meta])];
      }
    }

    method Write(m: Message) returns (ok: bool)
      modifies `calls, `boxes, `allocations
      ensures (ok <==> Unfailed(old(calls))) && (ok ==> calls == old(calls) + 4) && old(calls) <= calls
      ensures ok ==> boxes == Put(old(boxes), m)
      ensures !ok ==> SameMail(boxes, old(boxes)) && old(boxes).Keys <= boxes.Keys
    {
      var uid;
      ok, uid := AllocateUID(m.folder);
      if !ok {
        return;
      }
      var flags, keywords := SplitFlags(m.flags);
      ok := Append(m.folder, Meta(uid, flags, keywords, m.body, m.date, m.guid));
    }

    /** The visitor, given a message whose folder name is already normalised. */
    method Visit(m: Message) returns (ok: bool)
      requires CreatedOnce(created, known)
      modifies this
      ensures CreatedOnce(created, known)
      ensures old(known) <= known <= old(known) + {m.folder}
      ensures ok ==> m.folder in known && handles == old(handles) + {m.folder}
      ensures (ok <==> Unfailed(old(calls))) && old(calls) <= calls
      ensures ok ==> calls == old(calls) + (if m.folder in old(known) then 0 else 1)
                              + (if m.folder in old(handles) then 0 else 1) + (if dry then 0 else 4)
      ensures old(boxes).Keys <= boxes.Keys
      ensures dry ==> SameBoxes(boxes, old(boxes)) && allocations == old(allocations)
      ensures dry ==> migrated == old(migrated) && skipped == old(skipped) + if ok then 1 else 0
      ensures !dry ==> skipped == old(skipped) && migrated == old(migrated) + if ok then 1 else 0
      ensures !dry && ok ==> SameBoxes(boxes, Put(old(boxes), m))
      ensures !ok ==> SameMail(boxes, old(boxes))
    {
      ok := CreateFolder(m.folder);
      if !ok {
        return;
      }
      if m.folder !in handles {
        ok := OpenFolder(m.folder);
        if !ok {
          return;
        }
        handles := handles + {m.folder};
      }
      if dry {
        skipped := skipped + 1;
        return;
      }
      PutSame(boxes, old(boxes), m);
      ok := Write(m);
      if ok {
        migrated := migrated + 1;
      }
    }

    /** Folders first, so an empty one is carried across too. */
    method CreateListed(nfc: string -> string, names: seq<string>) returns (ok: bool)
      requires CreatedOnce(created, known)
      requires known == {"INBOX"}
      modifies `calls, `created, `known, `boxes
      ensures (ok <==> Unfailed(old(calls))) && old(calls) <= calls
      ensures CreatedOnce(created, known) && SameBoxes(boxes, old(boxes))
      ensures {"INBOX"} <= known <= {"INBOX"} + NamesOf(nfc, names)
      ensures ok ==> known == {"INBOX"} + NamesOf(nfc, names)
      ensures ok ==> forall n :: n in NamesOf(nfc, names) && n != "INBOX" ==> n in boxes
    {
      for i := 0 to |names|
        invariant Unfailed(old(calls)) && old(calls) <= calls
        invariant CreatedOnce(created, known) && SameBoxes(boxes, old(boxes))
        invariant known == {"INBOX"} + NamesOf(nfc, names[..i])
        invariant forall n :: n in known && n != "INBOX" ==> n in boxes
      {
        var name := nfc(names[i]);
        assert names[..i + 1] == names[..i] + [names[i]];
        assert NamesOf(nfc, names[..i + 1]) == NamesOf(nfc, names[..i]) + {name};
        assert NamesOf(nfc, names[..i]) <= NamesOf(nfc, names);
        if name !in known {
          ok := CreateFolder(name);
          if !ok {
            return;
          }
          ok := OpenFolder(name);
          if !ok {
            assert names[i] in names;
            return;
          }
        }
      }
      assert names[..|names|] == names;
      ok := true;
    }

    /** The same, after these messages of a run that found these boxes. */
    method VisitNext(m: Message, ghost start: Boxes, ghost ms: seq<Message>) returns (ok: bool)
      requires CreatedOnce(created, known)
      requires SameBoxes(boxes, if dry then start else PutAll(start, ms))
      modifies this
      ensures (ok <==> Unfailed(old(calls))) && old(calls) <= calls
      ensures CreatedOnce(created, known) && old(known) <= known <= old(known) + {m.folder}
      ensures ok ==> m.folder in known
      ensures old(boxes).Keys <= boxes.Keys
      ensures dry ==> SameBoxes(boxes, start) && allocations == old(allocations)
      ensures dry ==> migrated == old(migrated) && skipped == old(skipped) + if ok then 1 else 0
      ensures !dry ==> skipped == old(skipped) && migrated == old(migrated) + if ok then 1 else 0
      ensures !dry && ok ==> SameBoxes(boxes, PutAll(start, ms + [m]))
      ensures !dry && !ok ==> SameMail(boxes, PutAll(start, ms))
    {
      ghost var before := boxes;
      ok := Visit(m);
      if dry {
        SameBoxesThrough(boxes, before, start);
      } else if ok {
        PutOneMore(boxes, before, start, ms, m);
      } else {
        SameMailThrough(boxes, before, PutAll(start, ms));
      }
    }

    method VisitAll(source: seq<Message>, nfc: string -> string) returns (ok: bool)
      requires CreatedOnce(created, known) && migrated == skipped == 0
      modifies this
      ensures (ok <==> Unfailed(old(calls))) && old(calls) <= calls
      ensures CreatedOnce(created, known)
      ensures known <= old(known) + FoldersOf(Normalised(nfc, source))
      ensures ok ==> known == old(known) + FoldersOf(Normalised(nfc, source))
      ensures old(boxes).Keys <= boxes.Keys
      ensures dry ==> SameBoxes(boxes, old(boxes)) && allocations == old(allocations) && migrated == 0
      ensures dry && ok ==> skipped == |source|
      ensures !dry ==> migrated <= |source| && SameMail(boxes, PutAll(old(boxes), Normalised(nfc, source[..migrated])))
      ensures !dry && ok ==> migrated == |source| && SameBoxes(boxes, PutAll(old(boxes), Normalised(nfc, source)))
    {
      for i := 0 to |source|
        invariant Unfailed(old(calls)) && old(calls) <= calls
        invariant CreatedOnce(created, known)
        invariant known == old(known) + FoldersOf(Normalised(nfc, source[..i]))
        invariant old(boxes).Keys <= boxes.Keys
        invariant dry ==>
                    SameBoxes(boxes, old(boxes)) && allocations == old(allocations) && migrated == 0 && skipped == i
        invariant !dry ==> migrated == i && SameBoxes(boxes, PutAll(old(boxes), Normalised(nfc, source[..i])))
      {
        var m := source[i].(folder := nfc(source[i].folder));
        NormalisedGrows(nfc, source, i);
        ok := VisitNext(m, old(boxes), Normalised(nfc, source[..i]));
        if !ok {
          return;
        }
      }
      assert source[..|source|] == source;
      ok := true;
    }

    /**
     * The whole run over what the source walk delivers; `walked` says whether that walk itself
     * succeeded. A source that cannot list its folders has `lists` false.
     */
    method Run(source: seq<Message>, walked: bool, lists: bool, names: seq<string>, nfc: string -> string)
      returns (ok: bool)
      requires created == [] && known == {"INBOX"} && migrated == skipped == 0
      modifies this
      ensures ok <==> walked && Unfailed(old(calls))
      ensures CreatedOnce(created, known)
      ensures var listed := if lists && !dry then NamesOf(nfc, names) else {};
              var due := {"INBOX"} + listed + FoldersOf(Normalised(nfc, source));
              known <= due && (ok ==> known == due)
      ensures ok && lists && !dry ==> forall n :: n in NamesOf(nfc, names) && n != "INBOX" ==> n in boxes
      ensures dry ==> SameBoxes(boxes, old(boxes)) && allocations == old(allocations) && migrated == 0
      ensures dry && ok ==> skipped == |source|
      ensures !dry ==> migrated <= |source| && SameMail(boxes, PutAll(old(boxes), Normalised(nfc, source[..migrated])))
      ensures !dry && ok ==> migrated == |source| && SameBoxes(boxes, PutAll(old(boxes), Normalised(nfc, source)))
    {
      if lists && !dry {
        ok := CreateListed(nfc, names);
        if !ok {
          assert Normalised(nfc, source[..0]) == [];
          return;
        }
      }
      ghost var ready := boxes;
      ok := VisitAll(source, nfc);
      ghost var ms := Normalised(nfc, source[..migrated]);
      PutAllSame(ready, old(boxes), ms);
      SameMailThrough(boxes, PutAll(ready, ms), PutAll(old(boxes), ms));
      if ok && !dry {
        assert source[..migrated] == source;
        SameBoxesThrough(boxes, PutAll(ready, ms), PutAll(old(boxes), ms));
      }
      ok := ok && walked;
    }
  }
}
