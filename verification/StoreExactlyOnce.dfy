/** How often each stored record is delivered, counted independently of the order of the walk. */
module StoreExactlyOnce {
  import opened Basics
  import opened StoreImport

  /** The deliveries of steps that all succeed. */
  function Given(steps: seq<Step>): seq<Delivery> {
    if steps == [] then []
    else (if steps[0].Deliver? then [steps[0].delivery] else []) + Given(steps[1..])
  }

  lemma {:induction false} CompletedRunGives(steps: seq<Step>, refuseAt: int, already: nat)
    requires Completes(steps, refuseAt, already)
    ensures Delivered(steps, refuseAt, already) == Given(steps)
    ensures |Given(steps)| == |steps|
    decreases steps
  {
    if steps != [] {
      CompletedRunGives(steps[1..], refuseAt, already + 1);
    }
  }

  lemma {:induction false} GivenConcat(a: seq<Step>, b: seq<Step>)
    ensures Given(a + b) == Given(a) + Given(b)
  {
    if a == [] {
      assert a + b == b;
    } else {
      assert (a + b)[1..] == a[1..] + b;
      GivenConcat(a[1..], b);
      Regroup(if a[0].Deliver? then [a[0].delivery] else [], Given(a[1..]), Given(b));
    }
  }

  function Count(ds: seq<Delivery>, at: Location, byIndex: bool): nat {
    if ds == [] then 0
    else (if ds[0].at == at && ds[0].byIndex == byIndex then 1 else 0) + Count(ds[1..], at, byIndex)
  }

  lemma {:induction false} CountConcat(a: seq<Delivery>, b: seq<Delivery>, at: Location, byIndex: bool)
    ensures Count(a + b, at, byIndex) == Count(a, at, byIndex) + Count(b, at, byIndex)
  {
    if a == [] {
      assert a + b == b;
    } else {
      assert (a + b)[1..] == a[1..] + b;
      CountConcat(a[1..], b, at, byIndex);
    }
  }

  lemma {:induction false} OtherBranchCountsNothing(ds: seq<Delivery>, at: Location, byIndex: bool)
    requires forall d :: d in ds ==> d.byIndex != byIndex
    ensures Count(ds, at, byIndex) == 0
  {
    if ds != [] {
      OtherBranchCountsNothing(ds[1..], at, byIndex);
    }
  }

  // ---------------------------------------------------------------- the index branch

  /** How many index entries of the folders that have an index name this map uid. */
  function Mentions(folders: seq<Folder>, uid: nat): nat {
    if folders == [] then 0
    else Occurrences(RecordsOf(folders[0]), uid) + Mentions(folders[1..], uid)
  }

  function Occurrences(records: seq<IndexRecord>, uid: nat): nat {
    if records == [] then 0
    else (if records[0].mapUid == Some(uid) then 1 else 0) + Occurrences(records[1..], uid)
  }

  lemma {:induction false} OccursIffNamed(records: seq<IndexRecord>, uid: nat)
    ensures Occurrences(records, uid) > 0 <==> uid in UidsIn(records)
  {
    if records != [] {
      OccursIffNamed(records[1..], uid);
      assert records == [records[0]] + records[1..];
    }
  }

  lemma {:induction false} MentionedIffNamed(folders: seq<Folder>, uid: nat)
    ensures Mentions(folders, uid) > 0 <==> uid in NamedUids(folders)
  {
    if folders != [] {
      OccursIffNamed(RecordsOf(folders[0]), uid);
      MentionedIffNamed(folders[1..], uid);
    }
  }

  /** No two map entries share a location. */
  predicate OwnLocations(table: map<nat, Entry>) {
    forall u, v :: u in table && v in table && table[u].at == table[v].at ==> u == v
  }

  predicate AllDeliver(steps: seq<Step>) {
    forall s :: s in steps ==> s.Deliver?
  }

  lemma AllDeliverParts(a: seq<Step>, b: seq<Step>)
    requires AllDeliver(a + b)
    ensures AllDeliver(a) && AllDeliver(b)
  {
    assert forall s :: s in a ==> s in a + b;
    assert forall s :: s in b ==> s in a + b;
  }

  predicate AllFrom(ds: seq<Delivery>, byIndex: bool) {
    forall d :: d in ds ==> d.byIndex == byIndex
  }

  lemma AllFromConcat(a: seq<Delivery>, b: seq<Delivery>, byIndex: bool)
    requires AllFrom(a, byIndex) && AllFrom(b, byIndex)
    ensures AllFrom(a + b, byIndex)
  {
  }

  lemma {:induction false} RecordsCounted(folder: string, records: seq<IndexRecord>, table: map<nat, Entry>,
                                          files: map<nat, File>, uid: nat)
    requires OwnLocations(table) && uid in table
    requires AllDeliver(RecordSteps(folder, records, table, files))
    ensures Count(Given(RecordSteps(folder, records, table, files)), table[uid].at, true) == Occurrences(records, uid)
    ensures AllFrom(Given(RecordSteps(folder, records, table, files)), true)
    decreases records
  {
    if records != [] {
      var steps, rest := RecordSteps(folder, records, table, files), RecordSteps(folder, records[1..], table, files);
      assert steps == [steps[0]] + rest && steps[0] in steps;
      assert steps[1..] == rest;
      assert forall s :: s in rest ==> s in steps;
      RecordsCounted(folder, records[1..], table, files, uid);
      var given := Given(steps);
      assert given == [steps[0].delivery] + Given(rest);
      assert given[1..] == Given(rest);
    }
  }

  lemma FolderCounted(f: Folder, table: map<nat, Entry>, files: map<nat, File>, uid: nat)
    requires OwnLocations(table) && uid in table && AllDeliver(FolderSteps(f, table, files))
    ensures Count(Given(FolderSteps(f, table, files)), table[uid].at, true) == Occurrences(RecordsOf(f), uid)
    ensures AllFrom(Given(FolderSteps(f, table, files)), true)
  {
    var steps := FolderSteps(f, table, files);
    assert steps != [] ==> steps[0] in steps;
    if ReadFolder(f).Indexed? {
      RecordsCounted(f.name, RecordsOf(f), table, files, uid);
    }
  }

  lemma {:induction false} IndexCounted(folders: seq<Folder>, table: map<nat, Entry>, files: map<nat, File>, uid: nat)
    requires OwnLocations(table) && uid in table && AllDeliver(IndexSteps(folders, table, files))
    ensures Count(Given(IndexSteps(folders, table, files)), table[uid].at, true) == Mentions(folders, uid)
    ensures AllFrom(Given(IndexSteps(folders, table, files)), true)
    decreases folders
  {
    if folders != [] {
      var first, rest := FolderSteps(folders[0], table, files), IndexSteps(folders[1..], table, files);
      AllDeliverParts(first, rest);
      FolderCounted(folders[0], table, files, uid);
      IndexCounted(folders[1..], table, files, uid);
      GivenConcat(first, rest);
      CountConcat(Given(first), Given(rest), table[uid].at, true);
      AllFromConcat(Given(first), Given(rest), true);
    }
  }

  // ---------------------------------------------------------------- the scan

  /** The order a walk of the file meets its records in. */
  predicate InOrder(records: seq<StoredRecord>) {
    forall i, j :: 0 <= i < j < |records| ==> records[i].offset < records[j].offset
  }

  /** Records in offset order, none of them behind a break there is not. */
  predicate Intact(f: File) {
    InOrder(f.records + f.behind) && (!f.damaged ==> f.behind == [])
  }

  lemma WalkedInOrder(f: File)
    requires Intact(f)
    ensures InOrder(f.records)
  {
    forall i, j | 0 <= i < j < |f.records|
      ensures f.records[i].offset < f.records[j].offset
    {
      assert f.records[i] == (f.records + f.behind)[i] && f.records[j] == (f.records + f.behind)[j];
    }
  }

  lemma {:induction false} RecordAtFront(a: seq<StoredRecord>, b: seq<StoredRecord>, offset: nat)
    requires RecordAt(a, offset).Some?
    ensures RecordAt(a + b, offset) == RecordAt(a, offset)
  {
    assert (a + b)[1..] == a[1..] + b;
    if a[0].offset != offset {
      RecordAtFront(a[1..], b, offset);
    }
  }

  lemma {:induction false} RecordAtAbsent(records: seq<StoredRecord>, offset: nat)
    requires forall i :: 0 <= i < |records| ==> records[i].offset != offset
    ensures RecordAt(records, offset) == None
  {
    if records != [] {
      RecordAtAbsent(records[1..], offset);
    }
  }

  lemma {:induction false} FileCounted(id: nat, records: seq<StoredRecord>, wanted: set<Location>, at: Location)
    requires InOrder(records) && AllDeliver(FileSteps(id, records, wanted))
    ensures Count(Given(FileSteps(id, records, wanted)), at, false)
         == if id == at.file && at in wanted && RecordAt(records, at.offset).Some? then 1 else 0
    ensures AllFrom(Given(FileSteps(id, records, wanted)), false)
    decreases records
  {
    if records != [] {
      var steps, rest := FileSteps(id, records, wanted), FileSteps(id, records[1..], wanted);
      assert forall s :: s in rest ==> s in steps;
      FileCounted(id, records[1..], wanted, at);
      if records[0].offset == at.offset {
        RecordAtAbsent(records[1..], at.offset);
      }
      if At(id, records[0].offset) in wanted {
        assert steps == [ScanStep(id, records[0])] + rest;
        assert steps[0] in steps && steps[1..] == rest;
        var given := Given(steps);
        assert given == [steps[0].delivery] + Given(rest);
        assert given[1..] == Given(rest);
      } else {
        assert steps == rest;
      }
    }
  }

  lemma ScanFileCounted(id: nat, files: map<nat, File>, wanted: set<Location>, at: Location)
    requires forall f :: f in files ==> Intact(files[f])
    requires AllDeliver(ScanFileSteps(id, files, wanted))
    ensures Count(Given(ScanFileSteps(id, files, wanted)), at, false)
         == if id == at.file && at in wanted && Find(files, at).Some? then 1 else 0
    ensures AllFrom(Given(ScanFileSteps(id, files, wanted)), false)
  {
    var steps := ScanFileSteps(id, files, wanted);
    assert steps != [] ==> steps[|steps| - 1] in steps;
    if id in files && !files[id].damaged {
      assert steps == FileSteps(id, files[id].records, wanted);
      WalkedInOrder(files[id]);
      assert files[id].records + files[id].behind == files[id].records;
      FileCounted(id, files[id].records, wanted, at);
    }
  }

  lemma AscendingTail(ids: seq<nat>, id: nat)
    requires ids != [] && Ascending(ids)
    ensures Ascending(ids[1..])
    ensures id in ids <==> id == ids[0] || id in ids[1..]
    ensures id == ids[0] ==> id !in ids[1..]
  {
    assert ids == [ids[0]] + ids[1..];
  }

  lemma {:induction false} ScanCounted(ids: seq<nat>, files: map<nat, File>, wanted: set<Location>, at: Location)
    requires forall f :: f in files ==> Intact(files[f])
    requires Ascending(ids) && AllDeliver(ScanSteps(ids, files, wanted))
    ensures Count(Given(ScanSteps(ids, files, wanted)), at, false)
         == if at.file in ids && at in wanted && Find(files, at).Some? then 1 else 0
    ensures AllFrom(Given(ScanSteps(ids, files, wanted)), false)
    decreases ids
  {
    if ids != [] {
      var first, rest := ScanFileSteps(ids[0], files, wanted), ScanSteps(ids[1..], files, wanted);
      AscendingTail(ids, at.file);
      AllDeliverParts(first, rest);
      ScanFileCounted(ids[0], files, wanted, at);
      ScanCounted(ids[1..], files, wanted, at);
      GivenConcat(first, rest);
      CountConcat(Given(first), Given(rest), at, false);
      AllFromConcat(Given(first), Given(rest), false);
    }
  }

  // ---------------------------------------------------------------- both branches

  predicate WellFormed(store: Store) {
    OwnLocations(Table(store.entries)) && forall f :: f in store.files ==> Intact(store.files[f])
  }

  lemma {:induction false} CompletesAllDeliver(steps: seq<Step>, refuseAt: int, already: nat)
    requires Completes(steps, refuseAt, already)
    ensures AllDeliver(steps)
    decreases steps
  {
    if steps != [] {
      CompletesAllDeliver(steps[1..], refuseAt, already + 1);
    }
  }

  lemma {:induction false} WantedIff(table: map<nat, Entry>, named: set<nat>, uid: nat)
    requires OwnLocations(table) && uid in table
    ensures table[uid].at in Wanted(table, named) <==> uid !in named && table[uid].refs != 0
  {
  }

  /**
   * Every map entry of a store the walk gets through: named k times, its record is delivered k
   * times and all by the index; unnamed and live, once by the scan if a record starts there;
   * unnamed and dead, never.
   */
  lemma ExactlyOnce(store: Store, uid: nat, refuseAt: int, already: nat)
    requires WellFormed(store) && uid in Table(store.entries)
    requires Completes(Plan(store), refuseAt, already)
    ensures var ds := Delivered(Plan(store), refuseAt, already);
            var e, k := Table(store.entries)[uid], Mentions(store.folders, uid);
            && Count(ds, e.at, true) == k
            && (k > 0 ==> Count(ds, e.at, false) == 0)
            && (k == 0 && e.refs == 0 ==> Count(ds, e.at, false) == 0)
            && (k == 0 && e.refs != 0 ==> Count(ds, e.at, false) == if Find(store.files, e.at).Some? then 1 else 0)
  {
    var table, named := Table(store.entries), NamedUids(store.folders);
    var wanted := Wanted(table, named);
    var ids := IdsOf(FilesIn(wanted));
    var index, scan := IndexSteps(store.folders, table, store.files), ScanSteps(ids, store.files, wanted);
    var at := table[uid].at;
    CompletedRunGives(index + scan, refuseAt, already);
    CompletesAllDeliver(index + scan, refuseAt, already);
    AllDeliverParts(index, scan);
    IndexCounted(store.folders, table, store.files, uid);
    ScanCounted(ids, store.files, wanted, at);
    GivenConcat(index, scan);
    CountConcat(Given(index), Given(scan), at, true);
    CountConcat(Given(index), Given(scan), at, false);
    OtherBranchCountsNothing(Given(index), at, false);
    OtherBranchCountsNothing(Given(scan), at, true);
    MentionedIffNamed(store.folders, uid);
    WantedIff(table, named, uid);
    assert at in wanted ==> at.file in FilesIn(wanted);
    assert forall x :: x in ids <==> x in (set y | y in ids);
  }

  // ---------------------------------------------------------------- the counters

  function Entries(folders: seq<Folder>): nat {
    if folders == [] then 0 else |RecordsOf(folders[0])| + Entries(folders[1..])
  }

  lemma {:induction false} RecordStepsSize(folder: string, records: seq<IndexRecord>, table: map<nat, Entry>,
                                           files: map<nat, File>)
    ensures |RecordSteps(folder, records, table, files)| == |records|
    decreases records
  {
    if records != [] {
      RecordStepsSize(folder, records[1..], table, files);
    }
  }

  /** The index counter ends at the number of index entries read. */
  lemma {:induction false} IndexTotal(folders: seq<Folder>, table: map<nat, Entry>, files: map<nat, File>)
    requires AllDeliver(IndexSteps(folders, table, files))
    ensures |IndexSteps(folders, table, files)| == Entries(folders)
    decreases folders
  {
    if folders != [] {
      var first, rest := FolderSteps(folders[0], table, files), IndexSteps(folders[1..], table, files);
      AllDeliverParts(first, rest);
      assert first != [] ==> first[0] in first;
      RecordStepsSize(folders[0].name, RecordsOf(folders[0]), table, files);
      IndexTotal(folders[1..], table, files);
    }
  }

  ghost predicate CountedOnce(ds: seq<Delivery>, locations: set<Location>) {
    && (forall d :: d in ds ==> !d.byIndex)
    && (forall at :: Count(ds, at, false) == if at in locations then 1 else 0)
  }

  lemma {:induction false} CountedSize(ds: seq<Delivery>, locations: set<Location>)
    requires CountedOnce(ds, locations)
    ensures |ds| == |locations|
  {
    if ds == [] {
      assert forall at :: at in locations ==> Count(ds, at, false) == 1;
      assert locations == {};
    } else {
      var at := ds[0].at;
      assert Count(ds, at, false) == 1 + Count(ds[1..], at, false);
      assert at in locations;
      forall other
        ensures Count(ds[1..], other, false) == if other in locations - {at} then 1 else 0
      {
        assert Count(ds, other, false) == if other in locations then 1 else 0;
      }
      CountedSize(ds[1..], locations - {at});
    }
  }

  /** The record counter ends at the number of live, unnamed records there are to find. */
  lemma ScanTotal(files: map<nat, File>, wanted: set<Location>)
    requires forall f :: f in files ==> Intact(files[f])
    requires AllDeliver(ScanSteps(IdsOf(FilesIn(wanted)), files, wanted))
    ensures |Given(ScanSteps(IdsOf(FilesIn(wanted)), files, wanted))|
         == |set at | at in wanted && Find(files, at).Some?|
  {
    var ids := IdsOf(FilesIn(wanted));
    var ds, found := Given(ScanSteps(ids, files, wanted)), set at | at in wanted && Find(files, at).Some?;
    ScanCounted(ids, files, wanted, At(0, 0));
    forall at
      ensures Count(ds, at, false) == if at in found then 1 else 0
    {
      ScanCounted(ids, files, wanted, at);
      ListedIffIn(ids, FilesIn(wanted), at.file);
    }
    CountedSize(ds, found);
  }

  // ---------------------------------------------------------------- nothing else, and nothing altered

  /** The delivery shows a stored record, as the index entry or the record itself describes it. */
  ghost predicate Genuine(store: Store, d: Delivery) {
    && Find(store.files, d.at).Some?
    && d.message.body == Find(store.files, d.at).value.body
    && (if d.byIndex then IndexedAs(store, d) else RecoveredAs(store, d, Find(store.files, d.at).value))
  }

  predicate RecoveredAs(store: Store, d: Delivery, stored: StoredRecord) {
    && d.at in Wanted(Table(store.entries), NamedUids(store.folders))
    && stored.home == Named(d.message.folder) && d.message.folder != ""
    && d.message.flags == [] && d.message.date == stored.received && d.message.guid == stored.guid
  }

  /** The system flags the entry's byte carries, and its keywords behind them. */
  ghost predicate FlaggedAs(r: IndexRecord, flags: seq<string>) {
    exists f, high :: Carries(r.bits, f, high) && flags == Listed(f) + r.keywords
  }

  lemma NamesFlag(r: IndexRecord)
    ensures FlaggedAs(r, NamesIn(r.bits, SYSTEM_FLAGS) + r.keywords)
  {
    var f, high := CarriesSome(r.bits);
    FlagByteReads(f, high);
  }

  ghost predicate Describes(r: IndexRecord, table: map<nat, Entry>, d: Delivery) {
    && r.mapUid.Some? && r.mapUid.value in table && table[r.mapUid.value].at == d.at
    && FlaggedAs(r, d.message.flags)
    && d.message.date == r.saved && d.message.guid == r.guid
  }

  ghost predicate IndexedAs(store: Store, d: Delivery) {
    exists f :: f in store.folders && f.name == d.message.folder
      && exists r :: r in RecordsOf(f) && Describes(r, Table(store.entries), d)
  }

  lemma {:induction false} RecordStepsGenuine(store: Store, f: Folder, records: seq<IndexRecord>, d: Delivery)
    requires f in store.folders && forall r :: r in records ==> r in RecordsOf(f)
    requires Deliver(d) in RecordSteps(f.name, records, Table(store.entries), store.files)
    ensures Genuine(store, d) && d.byIndex
    decreases records
  {
    var table := Table(store.entries);
    if Deliver(d) == IndexStep(f.name, records[0], table, store.files) {
      NamesFlag(records[0]);
      assert Describes(records[0], table, d);
      assert records[0] in RecordsOf(f);
    } else {
      RecordStepsGenuine(store, f, records[1..], d);
    }
  }

  lemma {:induction false} IndexStepsGenuine(store: Store, folders: seq<Folder>, d: Delivery)
    requires forall f :: f in folders ==> f in store.folders
    requires Deliver(d) in IndexSteps(folders, Table(store.entries), store.files)
    ensures Genuine(store, d) && d.byIndex
    decreases folders
  {
    if Deliver(d) in FolderSteps(folders[0], Table(store.entries), store.files) {
      RecordStepsGenuine(store, folders[0], RecordsOf(folders[0]), d);
    } else {
      IndexStepsGenuine(store, folders[1..], d);
    }
  }

  lemma {:induction false} FileStepsGenuine(id: nat, records: seq<StoredRecord>, wanted: set<Location>, d: Delivery)
    requires InOrder(records) && Deliver(d) in FileSteps(id, records, wanted)
    ensures d.at in wanted && d.at.file == id && !d.byIndex
    ensures RecordAt(records, d.at.offset).Some?
    ensures ScanStep(id, RecordAt(records, d.at.offset).value) == Deliver(d)
    ensures exists i :: 0 <= i < |records| && records[i].offset == d.at.offset
    decreases records
  {
    if At(id, records[0].offset) in wanted && Deliver(d) == ScanStep(id, records[0]) {
    } else {
      FileStepsGenuine(id, records[1..], wanted, d);
      var i :| 0 <= i < |records[1..]| && records[1..][i].offset == d.at.offset;
      assert records[i + 1].offset == d.at.offset;
    }
  }

  lemma {:induction false} ScanStepsGenuine(ids: seq<nat>, files: map<nat, File>, wanted: set<Location>, d: Delivery)
    requires forall f :: f in files ==> Intact(files[f])
    requires Deliver(d) in ScanSteps(ids, files, wanted)
    ensures d.at in wanted && !d.byIndex && Find(files, d.at).Some?
    ensures ScanStep(d.at.file, Find(files, d.at).value) == Deliver(d)
    decreases ids
  {
    if Deliver(d) in ScanFileSteps(ids[0], files, wanted) {
      WalkedInOrder(files[ids[0]]);
      FileStepsGenuine(ids[0], files[ids[0]].records, wanted, d);
      RecordAtFront(files[ids[0]].records, files[ids[0]].behind, d.at.offset);
    } else {
      ScanStepsGenuine(ids[1..], files, wanted, d);
    }
  }

  lemma {:induction false} DeliveredFromSteps(steps: seq<Step>, refuseAt: int, already: nat, d: Delivery)
    requires d in Delivered(steps, refuseAt, already)
    ensures Deliver(d) in steps
    decreases steps
  {
    if d != steps[0].delivery {
      DeliveredFromSteps(steps[1..], refuseAt, already + 1, d);
    }
  }

  /** Whether or not the walk gets through, every message handed over is a stored one, unaltered. */
  lemma NothingInvented(store: Store, refuseAt: int, already: nat, d: Delivery)
    requires WellFormed(store) && d in Delivered(Plan(store), refuseAt, already)
    ensures Genuine(store, d)
  {
    DeliveredFromSteps(Plan(store), refuseAt, already, d);
    var table := Table(store.entries);
    var wanted := Wanted(table, NamedUids(store.folders));
    if Deliver(d) in IndexSteps(store.folders, table, store.files) {
      IndexStepsGenuine(store, store.folders, d);
    } else {
      ScanStepsGenuine(IdsOf(FilesIn(wanted)), store.files, wanted, d);
    }
  }

  /** A live entry whose offset starts no record is passed over, and the walk still reports success. */
  lemma DanglingEntryIsSkipped() returns (store: Store)
    ensures WellFormed(store) && Completes(Plan(store), -1, 0)
    ensures 7 in Table(store.entries) && Table(store.entries)[7].refs == 1 && Mentions(store.folders, 7) == 0
    ensures Delivered(Plan(store), -1, 0) == []
  {
    store := Store([Entry(7, At(1, 100), 1)], [], map[1 := File([], false, [])]);
    assert store.entries[..0] == [];
    assert Table(store.entries) == map[7 := store.entries[0]];
    var wanted := Wanted(Table(store.entries), {});
    assert Table(store.entries)[7].at in wanted;
    assert wanted == {At(1, 100)};
    ScanOfOne(At(1, 100), store.files);
  }

  lemma ScanOfOne(at: Location, files: map<nat, File>)
    requires at.file in files && files[at.file] == File([], false, [])
    ensures ScanSteps(IdsOf(FilesIn({at})), files, {at}) == []
  {
    var ids := IdsOf(FilesIn({at}));
    assert FilesIn({at}) == {at.file};
    forall id | id in ids
      ensures id == at.file
    {
      ListedIffIn(ids, {at.file}, id);
    }
    EmptyScan(ids, files, {at});
  }

  lemma {:induction false} EmptyScan(ids: seq<nat>, files: map<nat, File>, wanted: set<Location>)
    requires forall id :: id in ids ==> id in files && files[id] == File([], false, [])
    ensures ScanSteps(ids, files, wanted) == []
    decreases ids
  {
    if ids != [] {
      EmptyScan(ids[1..], files, wanted);
    }
  }
}
