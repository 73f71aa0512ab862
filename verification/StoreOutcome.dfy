/** Exactly when a walk over a store succeeds, and in which order it delivers. */
module StoreOutcome {
  import opened Basics
  import opened StoreImport
  import opened StoreExactlyOnce

  // ---------------------------------------------------------------- looking things up

  /** Of several map entries for a uid the last one counts. */
  lemma {:induction false} LastEntryCounts(entries: seq<Entry>, i: nat)
    requires i < |entries| && forall j :: i < j < |entries| ==> entries[j].mapUid != entries[i].mapUid
    ensures entries[i].mapUid in Table(entries) && Table(entries)[entries[i].mapUid] == entries[i]
  {
    var n := |entries| - 1;
    if i < n { LastEntryCounts(entries[..n], i); }
  }

  lemma {:induction false} EntryFrom(entries: seq<Entry>, uid: nat)
    requires uid in Table(entries)
    ensures Table(entries)[uid].mapUid == uid && Table(entries)[uid] in entries
  {
    var n := |entries| - 1;
    if entries[n].mapUid != uid { EntryFrom(entries[..n], uid); }
  }

  lemma {:induction false} RecordAtIff(records: seq<StoredRecord>, offset: nat, r: StoredRecord)
    requires InOrder(records)
    ensures RecordAt(records, offset) == Some(r) <==> r in records && r.offset == offset
  {
    if records != [] {
      var rest := records[1..];
      assert forall i :: 0 <= i < |rest| ==> rest[i] == records[i + 1];
      RecordAtIff(rest, offset, r);
      assert r in records <==> r == records[0] || r in rest;
      if records[0].offset == offset && r in rest {
        var i :| 0 <= i < |rest| && rest[i] == r;
        assert records[0].offset < records[i + 1].offset;
      }
    }
  }

  /** A location is found exactly if its file is there and a record starts there, before a break or behind it. */
  lemma FindIff(files: map<nat, File>, at: Location, r: StoredRecord)
    requires at.file in files ==> Intact(files[at.file])
    ensures Find(files, at) == Some(r)
       <==> at.file in files && (r in files[at.file].records || r in files[at.file].behind) && r.offset == at.offset
  {
    if at.file in files { RecordAtIff(files[at.file].records + files[at.file].behind, at.offset, r); }
  }

  // ---------------------------------------------------------------- success

  lemma AllDeliverConcat(a: seq<Step>, b: seq<Step>)
    ensures AllDeliver(a + b) <==> AllDeliver(a) && AllDeliver(b)
  {
    assert forall s :: s in a + b <==> s in a || s in b;
  }

  lemma {:induction false} CompletesIff(steps: seq<Step>, already: nat)
    ensures Completes(steps, -1, already) <==> AllDeliver(steps)
    decreases steps
  {
    if steps != [] {
      CompletesIff(steps[1..], already + 1);
      AllDeliverConcat([steps[0]], steps[1..]);
      assert steps == [steps[0]] + steps[1..] && (AllDeliver([steps[0]]) <==> steps[0].Deliver?);
    }
  }

  /** The entry names a map uid the map knows, and a record is where the map says. */
  predicate Backed(r: IndexRecord, table: map<nat, Entry>, files: map<nat, File>) {
    r.mapUid.Some? && r.mapUid.value in table && Find(files, table[r.mapUid.value].at).Some?
  }

  lemma {:induction false} RecordsDeliverIff(folder: string, records: seq<IndexRecord>, table: map<nat, Entry>,
                                             files: map<nat, File>)
    ensures AllDeliver(RecordSteps(folder, records, table, files))
       <==> forall r :: r in records ==> Backed(r, table, files)
    decreases records
  {
    if records != [] {
      var first, rest := [IndexStep(folder, records[0], table, files)], RecordSteps(folder, records[1..], table, files);
      RecordsDeliverIff(folder, records[1..], table, files);
      AllDeliverConcat(first, rest);
      assert AllDeliver(first) <==> first[0].Deliver?;
      assert first[0].Deliver? <==> Backed(records[0], table, files);
      assert records == [records[0]] + records[1..];
    }
  }

  /** The folder's index can be read, or there is none, and every entry of it is backed. */
  ghost predicate FolderBacked(f: Folder, table: map<nat, Entry>, files: map<nat, File>) {
    !ReadFolder(f).Broken? && forall r :: r in RecordsOf(f) ==> Backed(r, table, files)
  }

  lemma FolderDeliversIff(f: Folder, table: map<nat, Entry>, files: map<nat, File>)
    ensures AllDeliver(FolderSteps(f, table, files)) <==> FolderBacked(f, table, files)
  {
    match ReadFolder(f)
    case Indexed(records) => RecordsDeliverIff(f.name, records, table, files);
    case NoIndex =>
    case Broken => assert Fail in FolderSteps(f, table, files);
  }

  lemma {:induction false} IndexDeliversIff(folders: seq<Folder>, table: map<nat, Entry>, files: map<nat, File>)
    ensures AllDeliver(IndexSteps(folders, table, files))
       <==> forall f :: f in folders ==> FolderBacked(f, table, files)
    decreases folders
  {
    if folders != [] {
      var f, first, rest := folders[0], FolderSteps(folders[0], table, files), IndexSteps(folders[1..], table, files);
      IndexDeliversIff(folders[1..], table, files);
      AllDeliverConcat(first, rest);
      FolderDeliversIff(f, table, files);
      assert folders == [f] + folders[1..];
    }
  }

  predicate Housed(r: StoredRecord) {
    r.home.Named? && r.home.folder != ""
  }

  lemma {:induction false} FileDeliversIff(id: nat, records: seq<StoredRecord>, wanted: set<Location>)
    ensures AllDeliver(FileSteps(id, records, wanted))
       <==> forall r :: r in records && At(id, r.offset) in wanted ==> Housed(r)
    decreases records
  {
    if records != [] {
      var r := records[0];
      var first := if At(id, r.offset) in wanted then [ScanStep(id, r)] else [];
      FileDeliversIff(id, records[1..], wanted);
      AllDeliverConcat(first, FileSteps(id, records[1..], wanted));
      assert At(id, r.offset) in wanted ==> (AllDeliver(first) <==> first[0].Deliver?);
      assert records == [r] + records[1..];
    }
  }

  /** The file is there and undamaged, and every wanted record in it says where it belongs. */
  ghost predicate FileSound(id: nat, files: map<nat, File>, wanted: set<Location>) {
    id in files && !files[id].damaged && forall r :: r in files[id].records && At(id, r.offset) in wanted ==> Housed(r)
  }

  lemma {:induction false} ScanDeliversIff(ids: seq<nat>, files: map<nat, File>, wanted: set<Location>)
    ensures AllDeliver(ScanSteps(ids, files, wanted)) <==> forall id :: id in ids ==> FileSound(id, files, wanted)
    decreases ids
  {
    if ids != [] {
      ScanDeliversIff(ids[1..], files, wanted);
      AllDeliverConcat(ScanFileSteps(ids[0], files, wanted), ScanSteps(ids[1..], files, wanted));
      ScanFileDeliversIff(ids[0], files, wanted);
      assert ids == [ids[0]] + ids[1..];
    }
  }

  lemma ScanFileDeliversIff(id: nat, files: map<nat, File>, wanted: set<Location>)
    ensures AllDeliver(ScanFileSteps(id, files, wanted)) <==> FileSound(id, files, wanted)
  {
    assert !AllDeliver([Fail]) by { assert Fail in [Fail]; }
    if id in files {
      FileDeliversIff(id, files[id].records, wanted);
      AllDeliverConcat(FileSteps(id, files[id].records, wanted), if files[id].damaged then [Fail] else []);
    }
  }

  /**
   * With a visitor that refuses nothing the walk succeeds exactly if no folder's index is broken,
   * every index entry is backed by a record, and every file that holds a live record no index names
   * is there, undamaged, and says of each such record which folder it belongs to.
   */
  lemma SucceedsIff(store: Store)
    ensures var table := Table(store.entries);
            var wanted := Wanted(table, NamedUids(store.folders));
            Completes(Plan(store), -1, 0) ==
            ((forall f :: f in store.folders ==> FolderBacked(f, table, store.files))
             && forall at :: at in wanted ==> FileSound(at.file, store.files, wanted))
  {
    var table := Table(store.entries);
    var wanted := Wanted(table, NamedUids(store.folders));
    var ids := IdsOf(FilesIn(wanted));
    var scan := ScanSteps(ids, store.files, wanted);
    CompletesIff(Plan(store), 0);
    AllDeliverConcat(IndexSteps(store.folders, table, store.files), scan);
    IndexDeliversIff(store.folders, table, store.files);
    ScanDeliversIff(ids, store.files, wanted);
    forall id ensures id in ids <==> id in FilesIn(wanted) { ListedIffIn(ids, FilesIn(wanted), id); }
  }

  // ---------------------------------------------------------------- how far a walk gets

  /** The visitor gets the deliveries of the steps before the first failure, and none past the one it refuses. */
  lemma {:induction false} DeliveredUpTo(steps: seq<Step>, refuseAt: int, already: nat) returns (n: nat)
    ensures n <= |steps| && AllDeliver(steps[..n]) && Delivered(steps, refuseAt, already) == Given(steps[..n])
    ensures n == |Given(steps[..n])|
    ensures n == |steps| || steps[n].Fail? || already + n == refuseAt
    ensures refuseAt >= already ==> already + n <= refuseAt
    ensures Completes(steps, refuseAt, already) <==> n == |steps|
    decreases steps
  {
    if steps == [] || steps[0].Fail? || already == refuseAt {
      n := 0;
    } else {
      var rest := DeliveredUpTo(steps[1..], refuseAt, already + 1);
      n := rest + 1;
      assert steps[..n] == [steps[0]] + steps[1..][..rest];
      AllDeliverConcat([steps[0]], steps[1..][..rest]);
      GivenConcat([steps[0]], steps[1..][..rest]);
      assert Given([steps[0]]) == [steps[0].delivery] by { assert [steps[0]][1..] == []; }
    }
  }

  // ---------------------------------------------------------------- the order of deliveries

  /** An index entry with the folder it is in. */
  datatype Filed = Filed(folder: string, record: IndexRecord)

  function AllFiled(folders: seq<Folder>): seq<Filed> {
    if folders == [] then []
    else seq(|RecordsOf(folders[0])|, i requires 0 <= i < |RecordsOf(folders[0])| =>
               Filed(folders[0].name, RecordsOf(folders[0])[i])) + AllFiled(folders[1..])
  }

  lemma {:induction false} RecordStepsAt(folder: string, records: seq<IndexRecord>, table: map<nat, Entry>,
                                         files: map<nat, File>, i: nat)
    requires i < |records|
    ensures |RecordSteps(folder, records, table, files)| == |records|
    ensures RecordSteps(folder, records, table, files)[i] == IndexStep(folder, records[i], table, files)
    decreases records
  {
    if i > 0 {
      RecordStepsAt(folder, records[1..], table, files, i - 1);
    } else if |records| > 1 {
      RecordStepsAt(folder, records[1..], table, files, 0);
    }
  }

  lemma FolderStepsAre(f: Folder, table: map<nat, Entry>, files: map<nat, File>)
    requires !ReadFolder(f).Broken?
    ensures |FolderSteps(f, table, files)| == |RecordsOf(f)|
    ensures forall i :: 0 <= i < |RecordsOf(f)| ==>
              FolderSteps(f, table, files)[i] == IndexStep(f.name, RecordsOf(f)[i], table, files)
  {
    forall i | 0 <= i < |RecordsOf(f)|
      ensures |FolderSteps(f, table, files)| == |RecordsOf(f)|
      ensures FolderSteps(f, table, files)[i] == IndexStep(f.name, RecordsOf(f)[i], table, files)
    {
      RecordStepsAt(f.name, RecordsOf(f), table, files, i);
    }
  }

  /** The index branch takes the folders one after the other, each entry by entry. */
  lemma {:induction false} IndexInOrder(folders: seq<Folder>, table: map<nat, Entry>, files: map<nat, File>, i: nat)
    requires forall f :: f in folders ==> !ReadFolder(f).Broken?
    requires i < |AllFiled(folders)|
    ensures |IndexSteps(folders, table, files)| == |AllFiled(folders)|
    ensures IndexSteps(folders, table, files)[i]
         == IndexStep(AllFiled(folders)[i].folder, AllFiled(folders)[i].record, table, files)
    decreases folders
  {
    var f, rest := folders[0], folders[1..];
    assert forall g :: g in rest ==> g in folders;
    FolderStepsAre(f, table, files);
    var k := |RecordsOf(f)|;
    if i >= k {
      IndexInOrder(rest, table, files, i - k);
    } else if AllFiled(rest) != [] {
      IndexInOrder(rest, table, files, 0);
    } else {
      NothingFiled(rest, table, files);
    }
  }

  lemma {:induction false} NothingFiled(folders: seq<Folder>, table: map<nat, Entry>, files: map<nat, File>)
    requires (forall f :: f in folders ==> !ReadFolder(f).Broken?) && AllFiled(folders) == []
    ensures IndexSteps(folders, table, files) == []
    decreases folders
  {
    if folders != [] {
      assert forall g :: g in folders[1..] ==> g in folders;
      FolderStepsAre(folders[0], table, files);
      NothingFiled(folders[1..], table, files);
    }
  }

  predicate Earlier(a: Location, b: Location) {
    a.file < b.file || (a.file == b.file && a.offset < b.offset)
  }

  predicate InLocationOrder(ds: seq<Delivery>) {
    forall i, j :: 0 <= i < j < |ds| ==> Earlier(ds[i].at, ds[j].at)
  }

  lemma OrderedConcat(a: seq<Delivery>, b: seq<Delivery>)
    requires InLocationOrder(a) && InLocationOrder(b) && forall x, y :: x in a && y in b ==> Earlier(x.at, y.at)
    ensures InLocationOrder(a + b)
  {
    forall i, j | 0 <= i < j < |a + b|
      ensures Earlier((a + b)[i].at, (a + b)[j].at)
    {
      if i < |a| <= j { assert a[i] in a && b[j - |a|] in b; }
    }
  }

  lemma {:induction false} FileInOrder(id: nat, records: seq<StoredRecord>, wanted: set<Location>)
    requires InOrder(records)
    ensures InLocationOrder(Given(FileSteps(id, records, wanted)))
    ensures forall d :: d in Given(FileSteps(id, records, wanted)) ==>
              d.at.file == id && exists r :: r in records && r.offset == d.at.offset
    decreases records
  {
    if records != [] {
      var r, rest := records[0], records[1..];
      var first, more := if At(id, r.offset) in wanted then [ScanStep(id, r)] else [], FileSteps(id, rest, wanted);
      assert forall i :: 0 <= i < |rest| ==> rest[i] == records[i + 1];
      FileInOrder(id, rest, wanted);
      GivenConcat(first, more);
      GivenOfOne(first);
      forall x, y | x in Given(first) && y in Given(more)
        ensures Earlier(x.at, y.at)
      {
        var q :| q in rest && q.offset == y.at.offset;
        var i :| 0 <= i < |rest| && rest[i] == q;
        assert records[0].offset < records[i + 1].offset;
      }
      OrderedConcat(Given(first), Given(more));
      assert forall q :: q in rest ==> q in records;
    }
  }

  lemma GivenOfOne(steps: seq<Step>)
    requires |steps| <= 1
    ensures Given(steps) == if |steps| == 1 && steps[0].Deliver? then [steps[0].delivery] else []
  {
    if |steps| == 1 { assert steps[1..] == []; }
  }

  lemma ScanFileInOrder(id: nat, files: map<nat, File>, wanted: set<Location>)
    requires forall f :: f in files ==> Intact(files[f])
    ensures InLocationOrder(Given(ScanFileSteps(id, files, wanted)))
    ensures forall d :: d in Given(ScanFileSteps(id, files, wanted)) ==> d.at.file == id
  {
    if id in files {
      var tail: seq<Step> := if files[id].damaged then [Fail] else [];
      WalkedInOrder(files[id]);
      FileInOrder(id, files[id].records, wanted);
      GivenConcat(FileSteps(id, files[id].records, wanted), tail);
      GivenOfOne(tail);
      assert Given(FileSteps(id, files[id].records, wanted)) + [] == Given(FileSteps(id, files[id].records, wanted));
    } else {
      GivenOfOne([Fail]);
    }
  }

  /** The scan takes the files by number and each file by offset. */
  lemma {:induction false} ScanInOrder(ids: seq<nat>, files: map<nat, File>, wanted: set<Location>)
    requires Ascending(ids) && forall f :: f in files ==> Intact(files[f])
    ensures InLocationOrder(Given(ScanSteps(ids, files, wanted)))
    ensures forall d :: d in Given(ScanSteps(ids, files, wanted)) ==> d.at.file in ids
    decreases ids
  {
    if ids != [] {
      var first, rest := ScanFileSteps(ids[0], files, wanted), ScanSteps(ids[1..], files, wanted);
      AscendingTail(ids, ids[0]);
      ScanFileInOrder(ids[0], files, wanted);
      ScanInOrder(ids[1..], files, wanted);
      GivenConcat(first, rest);
      forall x, y | x in Given(first) && y in Given(rest)
        ensures Earlier(x.at, y.at)
      {
        var i :| 0 <= i < |ids[1..]| && ids[1..][i] == y.at.file;
        assert ids[0] < ids[i + 1];
      }
      OrderedConcat(Given(first), Given(rest));
      assert forall x :: x in ids[1..] ==> x in ids;
    }
  }
}
