/**
 * Importing a reference mdbox store: every folder with an index is read through it, and one scan
 * of the storage files then delivers the live records no index named.
 */
module StoreImport {
  import opened Basics
  import FolderLog

  datatype Location = At(file: nat, offset: nat)

  datatype Entry = Entry(mapUid: nat, at: Location, refs: nat)

  /** One message of a folder index. `mapUid` is None when the record carries no usable mdbox field. */
  datatype IndexRecord = IndexRecord(bits: nat, keywords: seq<string>, mapUid: Option<nat>, saved: int, guid: string)

  /** The folder a stored record says it was first saved to. */
  datatype Home = Unnamed | Garbled | Named(folder: string)

  datatype StoredRecord = StoredRecord(offset: nat, home: Home, body: string, received: int, guid: string)

  /**
   * A storage file: the records a walk visits, whether the walk then breaks off with an error, and
   * the records behind the break, which can still be read by their offset.
   */
  datatype File = File(records: seq<StoredRecord>, damaged: bool, behind: seq<StoredRecord>)

  datatype Folder = Folder(
    name: string, base: FolderLog.OnDisk<seq<IndexRecord>>, log: FolderLog.OnDisk<FolderLog.Log<IndexRecord>>)

  datatype Store = Store(entries: seq<Entry>, folders: seq<Folder>, files: map<nat, File>)

  datatype Message = Message(folder: string, body: string, flags: seq<string>, date: int, guid: string)

  /** A message handed to the visitor, with where its bytes came from and which branch found it. */
  datatype Delivery = Delivery(message: Message, at: Location, byIndex: bool)

  datatype Step = Deliver(delivery: Delivery) | Fail

  // ---------------------------------------------------------------- reading a folder

  function ReadFolder(f: Folder): FolderLog.FolderRead<IndexRecord> {
    FolderLog.ReadIndex(f.base, f.log)
  }

  /** Weight and name of each system flag in the index's flag byte. */
  const SYSTEM_FLAGS: seq<(nat, string)> :=
    [(1, "\\Answered"), (2, "\\Flagged"), (4, "\\Deleted"), (8, "\\Seen"), (16, "\\Draft")]

  predicate Bit(b: nat, weight: nat)
  {
    weight != 0 && b / weight % 2 == 1
  }

  function NamesIn(b: nat, table: seq<(nat, string)>): seq<string> {
    if table == [] then []
    else (if Bit(b, table[0].0) then [table[0].1] else []) + NamesIn(b, table[1..])
  }

  method FlagNames(b: nat, table: seq<(nat, string)>) returns (names: seq<string>)
    ensures names == NamesIn(b, table)
    ensures table == SYSTEM_FLAGS ==> forall f, high :: Carries(b, f, high) ==> names == Listed(f)
  {
    names := [];
    for i := 0 to |table|
      invariant names + NamesIn(b, table[i..]) == NamesIn(b, table)
    {
      ghost var rest := table[i..];
      assert rest[1..] == table[i + 1..];
      if Bit(b, table[i].0) {
        names := names + [table[i].1];
      }
    }
    forall f, high | Carries(b, f, high) ensures NamesIn(b, SYSTEM_FLAGS) == Listed(f) { FlagByteReads(f, high); }
  }

  /** A name is reported exactly when its bit is set. */
  lemma {:induction false} NamesInTable(b: nat, table: seq<(nat, string)>, k: nat)
    requires k < |table|
    requires forall i, j :: 0 <= i < j < |table| ==> table[i].1 != table[j].1
    ensures table[k].1 in NamesIn(b, table) <==> Bit(b, table[k].0)
    ensures forall n :: n in NamesIn(b, table) ==> exists i :: 0 <= i < |table| && table[i].1 == n
  {
    if |table| > 1 {
      NamesInTable(b, table[1..], if k == 0 then 0 else k - 1);
    }
  }

  /** The system flags of a message, and the byte and the list of names that stand for them. */
  datatype SystemFlags = SystemFlags(answered: bool, flagged: bool, deleted: bool, seen: bool, draft: bool)

  function FlagByte(f: SystemFlags): nat {
    (if f.answered then 1 else 0) + (if f.flagged then 2 else 0) + (if f.deleted then 4 else 0)
    + (if f.seen then 8 else 0) + (if f.draft then 16 else 0)
  }

  function Listed(f: SystemFlags): seq<string> {
    (if f.answered then ["\\Answered"] else []) + (if f.flagged then ["\\Flagged"] else [])
    + (if f.deleted then ["\\Deleted"] else []) + (if f.seen then ["\\Seen"] else [])
    + (if f.draft then ["\\Draft"] else [])
  }

  /** The byte carries these flags, and anything in its upper bits. */
  predicate Carries(b: nat, f: SystemFlags, high: nat) {
    b == FlagByte(f) + 32 * high
  }

  /** Whatever is above them, a byte with these flags names exactly them, in this order. */
  lemma FlagByteReads(f: SystemFlags, high: nat)
    ensures NamesIn(FlagByte(f) + 32 * high, SYSTEM_FLAGS) == Listed(f)
  {
    var b := FlagByte(f) + 32 * high;
    BitsAre(b, f, high);
    var t := SYSTEM_FLAGS;
    var t1, t2, t3, t4 := t[1..], t[1..][1..], t[1..][1..][1..], t[1..][1..][1..][1..];
    assert t1[0] == t[1] && t2[0] == t[2] && t3[0] == t[3] && t4[0] == t[4] && t4[1..] == [];
    assert NamesIn(b, t4) == Word(f.draft, "\\Draft") + [] == Word(f.draft, "\\Draft");
    assert NamesIn(b, t3) == Word(f.seen, "\\Seen") + NamesIn(b, t4);
    assert NamesIn(b, t2) == Word(f.deleted, "\\Deleted") + NamesIn(b, t3);
    assert NamesIn(b, t1) == Word(f.flagged, "\\Flagged") + NamesIn(b, t2);
    Regrouped(Word(f.answered, "\\Answered"), Word(f.flagged, "\\Flagged"), Word(f.deleted, "\\Deleted"),
              Word(f.seen, "\\Seen"), Word(f.draft, "\\Draft"));
  }

  function Word(on: bool, name: string): seq<string> {
    if on then [name] else []
  }

  lemma Regrouped<T>(a: seq<T>, b: seq<T>, c: seq<T>, d: seq<T>, e: seq<T>)
    ensures a + (b + (c + (d + e))) == a + b + c + d + e
  {
  }

  lemma BitsAre(b: nat, f: SystemFlags, high: nat)
    requires Carries(b, f, high)
    ensures (Bit(b, 1) <==> f.answered) && (Bit(b, 2) <==> f.flagged) && (Bit(b, 4) <==> f.deleted)
    ensures (Bit(b, 8) <==> f.seen) && (Bit(b, 16) <==> f.draft)
  {
    var r := if f.draft then 1 else 0;
    var s := (if f.seen then 1 else 0) + 2 * (r + 2 * high);
    var d := (if f.deleted then 1 else 0) + 2 * s;
    var g := (if f.flagged then 1 else 0) + 2 * d;
    assert b == (if f.answered then 1 else 0) + 2 * g;
    assert b / 16 == r + 2 * high && b / 8 == s && b / 4 == d && b / 2 == g;
  }

  /** Every byte carries some flags. */
  lemma CarriesSome(b: nat) returns (f: SystemFlags, high: nat)
    ensures Carries(b, f, high)
  {
    var g, d, s, r := b / 2, b / 2 / 2, b / 2 / 2 / 2, b / 2 / 2 / 2 / 2;
    f := SystemFlags(b % 2 == 1, g % 2 == 1, d % 2 == 1, s % 2 == 1, r % 2 == 1);
    high := r / 2;
    assert b == (if f.answered then 1 else 0) + 2 * g;
    assert g == (if f.flagged then 1 else 0) + 2 * d;
    assert d == (if f.deleted then 1 else 0) + 2 * s;
    assert s == (if f.seen then 1 else 0) + 2 * r;
    assert r == (if f.draft then 1 else 0) + 2 * high;
  }

  // ---------------------------------------------------------------- what a walk delivers, in order

  function Table(entries: seq<Entry>): map<nat, Entry> {
    if entries == [] then map[]
    else
      var last := entries[|entries| - 1];
      Table(entries[..|entries| - 1])[last.mapUid := last]
  }

  function RecordAt(records: seq<StoredRecord>, offset: nat): Option<StoredRecord> {
    if records == [] then None
    else if records[0].offset == offset then Some(records[0])
    else RecordAt(records[1..], offset)
  }

  function Find(files: map<nat, File>, at: Location): Option<StoredRecord> {
    if at.file in files then RecordAt(files[at.file].records + files[at.file].behind, at.offset) else None
  }

  function IndexStep(folder: string, r: IndexRecord, table: map<nat, Entry>, files: map<nat, File>): Step {
    if r.mapUid.None? || r.mapUid.value !in table then Fail
    else
      var at := table[r.mapUid.value].at;
      match Find(files, at)
      case None => Fail
      case Some(stored) =>
        var flags := NamesIn(r.bits, SYSTEM_FLAGS) + r.keywords;
        Deliver(Delivery(Message(folder, stored.body, flags, r.saved, r.guid), at, true))
  }

  function RecordSteps(folder: string, records: seq<IndexRecord>, table: map<nat, Entry>,
                       files: map<nat, File>): seq<Step>
    decreases records
  {
    if records == [] then []
    else [IndexStep(folder, records[0], table, files)] + RecordSteps(folder, records[1..], table, files)
  }

  function FolderSteps(f: Folder, table: map<nat, Entry>, files: map<nat, File>): seq<Step> {
    match ReadFolder(f)
    case Indexed(records) => RecordSteps(f.name, records, table, files)
    case NoIndex => []
    case Broken => [Fail]
  }

  function IndexSteps(folders: seq<Folder>, table: map<nat, Entry>, files: map<nat, File>): seq<Step>
    decreases folders
  {
    if folders == [] then []
    else FolderSteps(folders[0], table, files) + IndexSteps(folders[1..], table, files)
  }

  function UidsIn(records: seq<IndexRecord>): set<nat> {
    set r | r in records && r.mapUid.Some? :: r.mapUid.value
  }

  function RecordsOf(f: Folder): seq<IndexRecord> {
    match ReadFolder(f)
    case Indexed(records) => records
    case _ => []
  }

  function NamedUids(folders: seq<Folder>): set<nat> {
    if folders == [] then {} else UidsIn(RecordsOf(folders[0])) + NamedUids(folders[1..])
  }

  /** Where the live records sit that no index named. */
  function Wanted(table: map<nat, Entry>, named: set<nat>): set<Location> {
    set u | u in table && u !in named && table[u].refs != 0 :: table[u].at
  }

  function ScanStep(id: nat, r: StoredRecord): Step {
    if r.home.Named? && r.home.folder != "" then
      Deliver(Delivery(Message(r.home.folder, r.body, [], r.received, r.guid), At(id, r.offset), false))
    else Fail
  }

  function FileSteps(id: nat, records: seq<StoredRecord>, wanted: set<Location>): seq<Step>
    decreases records
  {
    if records == [] then []
    else
      (if At(id, records[0].offset) in wanted then [ScanStep(id, records[0])] else [])
      + FileSteps(id, records[1..], wanted)
  }

  function ScanFileSteps(id: nat, files: map<nat, File>, wanted: set<Location>): seq<Step> {
    if id !in files then [Fail]
    else FileSteps(id, files[id].records, wanted) + if files[id].damaged then [Fail] else []
  }

  function ScanSteps(ids: seq<nat>, files: map<nat, File>, wanted: set<Location>): seq<Step>
    decreases ids
  {
    if ids == [] then []
    else ScanFileSteps(ids[0], files, wanted) + ScanSteps(ids[1..], files, wanted)
  }

  function FilesIn(wanted: set<Location>): set<nat> {
    set at | at in wanted :: at.file
  }

  predicate Ascending(ids: seq<nat>) {
    forall i, j :: 0 <= i < j < |ids| ==> ids[i] < ids[j]
  }

  predicate Lists(ids: seq<nat>, s: set<nat>) {
    Ascending(ids) && (set x | x in ids) == s
  }

  ghost function Max(s: set<nat>): (m: nat)
    requires s != {}
    ensures m in s
    ensures forall x :: x in s ==> x <= m
  {
    var y :| y in s;
    if s == {y} then y
    else
      var m := Max(s - {y});
      assert forall x :: x in s ==> x == y || x in s - {y};
      if y < m then m else y
  }

  lemma ListingExtends(ids: seq<nat>, s: set<nat>, top: nat)
    requires Lists(ids, s) && forall x :: x in s ==> x < top
    ensures Lists(ids + [top], s + {top})
  {
    assert forall i :: 0 <= i < |ids| ==> ids[i] in s;
    assert (set x | x in ids + [top]) == (set x | x in ids) + {top};
  }

  /** The ids in ascending order. */
  ghost function IdsOf(s: set<nat>): (ids: seq<nat>)
    ensures Lists(ids, s)
  {
    if s == {} then []
    else
      var m := Max(s);
      ListingExtends(IdsOf(s - {m}), s - {m}, m);
      assert s - {m} + {m} == s;
      IdsOf(s - {m}) + [m]
  }

  lemma ListedIffIn(ids: seq<nat>, s: set<nat>, x: nat)
    requires Lists(ids, s)
    ensures x in ids <==> x in s
  {
  }

  lemma EmptyListing(ids: seq<nat>, s: set<nat>)
    requires Lists(ids, s)
    ensures ids == [] <==> s == {}
  {
    if ids != [] { assert ids[0] in s; }
  }

  lemma LastIsMax(ids: seq<nat>, s: set<nat>)
    requires Lists(ids, s) && ids != []
    ensures ids[|ids| - 1] in s
    ensures forall x :: x in s ==> x <= ids[|ids| - 1]
  {
    forall x | x in s
      ensures x <= ids[|ids| - 1]
    {
      assert x in ids;
    }
  }

  lemma FrontLists(ids: seq<nat>, s: set<nat>)
    requires Lists(ids, s) && ids != []
    ensures Lists(ids[..|ids| - 1], s - {ids[|ids| - 1]})
  {
    var front, top := ids[..|ids| - 1], ids[|ids| - 1];
    assert ids == front + [top];
    assert (set x | x in ids) == (set x | x in front) + {top};
    assert top !in front;
  }

  /** There is only one ascending listing, so no choice made while building one can show. */
  lemma {:induction false} ListingIsUnique(a: seq<nat>, b: seq<nat>, s: set<nat>)
    requires Lists(a, s) && Lists(b, s)
    ensures a == b
    decreases |a|
  {
    EmptyListing(a, s);
    EmptyListing(b, s);
    if a != [] {
      LastIsMax(a, s);
      LastIsMax(b, s);
      FrontLists(a, s);
      FrontLists(b, s);
      ListingIsUnique(a[..|a| - 1], b[..|b| - 1], s - {a[|a| - 1]});
      assert a == a[..|a| - 1] + [a[|a| - 1]] && b == b[..|b| - 1] + [b[|b| - 1]];
    }
  }

  ghost function Plan(store: Store): seq<Step> {
    var table := Table(store.entries);
    var wanted := Wanted(table, NamedUids(store.folders));
    IndexSteps(store.folders, table, store.files) + ScanSteps(IdsOf(FilesIn(wanted)), store.files, wanted)
  }

  // ---------------------------------------------------------------- running a plan

  /** What reaches the visitor: everything before the first failure or the visit it refuses. */
  function Delivered(steps: seq<Step>, refuseAt: int, already: nat): seq<Delivery>
    decreases steps
  {
    if steps == [] || steps[0].Fail? || already == refuseAt then []
    else [steps[0].delivery] + Delivered(steps[1..], refuseAt, already + 1)
  }

  predicate Completes(steps: seq<Step>, refuseAt: int, already: nat)
    decreases steps
  {
    steps == [] || (steps[0].Deliver? && already != refuseAt && Completes(steps[1..], refuseAt, already + 1))
  }

  lemma {:induction false} CompletesConcat(a: seq<Step>, b: seq<Step>, refuseAt: int, already: nat)
    ensures Completes(a + b, refuseAt, already)
       <==> Completes(a, refuseAt, already) && Completes(b, refuseAt, already + |a|)
    decreases a
  {
    if a == [] {
      assert a + b == b;
    } else {
      assert (a + b)[1..] == a[1..] + b;
      CompletesConcat(a[1..], b, refuseAt, already + 1);
    }
  }

  lemma {:induction false} DeliveredConcat(a: seq<Step>, b: seq<Step>, refuseAt: int, already: nat)
    ensures Delivered(a + b, refuseAt, already)
         == Delivered(a, refuseAt, already)
            + if Completes(a, refuseAt, already) then Delivered(b, refuseAt, already + |a|) else []
    decreases a
  {
    if a == [] {
      assert a + b == b;
    } else {
      assert (a + b)[1..] == a[1..] + b;
      DeliveredConcat(a[1..], b, refuseAt, already + 1);
    }
  }

  lemma {:induction false} CompletesDelivers(a: seq<Step>, refuseAt: int, already: nat)
    requires Completes(a, refuseAt, already)
    ensures |Delivered(a, refuseAt, already)| == |a|
    ensures forall i :: 0 <= i < |a| ==> a[i].Deliver? && Delivered(a, refuseAt, already)[i] == a[i].delivery
    decreases a
  {
    if a != [] {
      CompletesDelivers(a[1..], refuseAt, already + 1);
    }
  }
}
