/** The walk itself: nested loops over folders, records and files, run against the plan it must follow. */
module StoreWalk {
  import opened Basics
  import opened StoreImport
  import Order

  /** `now` has been delivered, `rest` is still to come, and together they are `whole` run from `start`. */
  ghost predicate OnTrack(now: seq<Delivery>, rest: seq<Step>, start: seq<Delivery>, whole: seq<Step>, refuseAt: int) {
    && now + Delivered(rest, refuseAt, |now|) == start + Delivered(whole, refuseAt, |start|)
    && (Completes(rest, refuseAt, |now|) <==> Completes(whole, refuseAt, |start|))
  }

  /** How a stretch of work ended. */
  ghost predicate Ran(now: seq<Delivery>, start: seq<Delivery>, whole: seq<Step>, refuseAt: int, ok: bool) {
    && now == start + Delivered(whole, refuseAt, |start|)
    && (ok <==> Completes(whole, refuseAt, |start|))
  }

  lemma Advance(now: seq<Delivery>, d: Delivery, rest: seq<Step>, start: seq<Delivery>, whole: seq<Step>, refuseAt: int)
    requires OnTrack(now, [Deliver(d)] + rest, start, whole, refuseAt)
    ensures |now| != refuseAt ==> OnTrack(now + [d], rest, start, whole, refuseAt)
    ensures |now| == refuseAt ==> Ran(now, start, whole, refuseAt, false)
  {
    assert ([Deliver(d)] + rest)[1..] == rest;
    assert now + ([d] + Delivered(rest, refuseAt, |now| + 1)) == now + [d] + Delivered(rest, refuseAt, |now| + 1);
  }

  lemma Stop(now: seq<Delivery>, rest: seq<Step>, start: seq<Delivery>, whole: seq<Step>, refuseAt: int)
    requires OnTrack(now, rest, start, whole, refuseAt)
    requires rest != [] && rest[0].Fail?
    ensures Ran(now, start, whole, refuseAt, false)
  {
  }

  /** A finished stretch is the first part of a longer one. */
  lemma Continue(now: seq<Delivery>, mid: seq<Delivery>, part: seq<Step>, rest: seq<Step>,
                 start: seq<Delivery>, whole: seq<Step>, refuseAt: int)
    requires OnTrack(mid, part + rest, start, whole, refuseAt)
    requires Ran(now, mid, part, refuseAt, true)
    ensures OnTrack(now, rest, start, whole, refuseAt)
  {
    DeliveredConcat(part, rest, refuseAt, |mid|);
    CompletesConcat(part, rest, refuseAt, |mid|);
    CompletesDelivers(part, refuseAt, |mid|);
    Regroup(mid, Delivered(part, refuseAt, |mid|), Delivered(rest, refuseAt, |mid| + |part|));
  }

  lemma StopWithin(now: seq<Delivery>, mid: seq<Delivery>, part: seq<Step>, rest: seq<Step>,
                   start: seq<Delivery>, whole: seq<Step>, refuseAt: int)
    requires OnTrack(mid, part + rest, start, whole, refuseAt)
    requires Ran(now, mid, part, refuseAt, false)
    ensures Ran(now, start, whole, refuseAt, false)
  {
    DeliveredConcat(part, rest, refuseAt, |mid|);
    CompletesConcat(part, rest, refuseAt, |mid|);
  }

  /** The locations a two-level table of wanted offsets stands for. */
  ghost predicate Covers(wanted: map<nat, map<nat, nat>>, locations: set<Location>) {
    && wanted.Keys == FilesIn(locations)
    && forall f, o :: f in wanted && o in wanted[f] <==> At(f, o) in locations
  }

  function Part(table: map<nat, Entry>, keys: set<nat>): map<nat, Entry> {
    map u | u in table && u in keys :: table[u]
  }

  lemma WantedGrows(table: map<nat, Entry>, keys: set<nat>, named: set<nat>, u: nat)
    requires u in table
    ensures Wanted(Part(table, keys + {u}), named)
         == Wanted(Part(table, keys), named) + if u in named || table[u].refs == 0 then {} else {table[u].at}
  {
    var p, q := Part(table, keys), Part(table, keys + {u});
    assert q[u] == table[u];
    forall at | at in Wanted(p, named)
      ensures at in Wanted(q, named)
    {
      var v :| v in p && v !in named && p[v].refs != 0 && p[v].at == at;
      assert q[v] == p[v];
    }
    forall at | at in Wanted(q, named)
      ensures at in Wanted(p, named) || (u !in named && table[u].refs != 0 && at == table[u].at)
    {
      var v :| v in q && v !in named && q[v].refs != 0 && q[v].at == at;
      if v != u { assert p[v] == q[v]; }
    }
  }

  function Add(wanted: map<nat, map<nat, nat>>, at: Location, u: nat): map<nat, map<nat, nat>> {
    var offsets := if at.file in wanted then wanted[at.file] else map[];
    wanted[at.file := offsets[at.offset := u]]
  }

  lemma CoversGrows(wanted: map<nat, map<nat, nat>>, locations: set<Location>, at: Location, u: nat)
    requires Covers(wanted, locations)
    ensures Covers(Add(wanted, at, u), locations + {at})
  {
    assert FilesIn(locations + {at}) == FilesIn(locations) + {at.file};
  }

  lemma WantedStep(wanted: map<nat, map<nat, nat>>, table: map<nat, Entry>, seen: set<nat>, named: set<nat>, u: nat)
    requires u in table && Covers(wanted, Wanted(Part(table, seen), named))
    ensures var wanted' := if u in named || table[u].refs == 0 then wanted else Add(wanted, table[u].at, u);
            Covers(wanted', Wanted(Part(table, seen + {u}), named))
  {
    WantedGrows(table, seen, named, u);
    var locations := Wanted(Part(table, seen), named);
    if u in named || table[u].refs == 0 {
      assert locations + {} == locations;
    } else {
      CoversGrows(wanted, locations, table[u].at, u);
    }
  }

  /** Whatever order the map is walked in, the same locations are wanted. */
  method CollectWanted(table: map<nat, Entry>, named: set<nat>) returns (wanted: map<nat, map<nat, nat>>)
    ensures Covers(wanted, Wanted(table, named))
  {
    wanted := map[];
    var todo := table.Keys;
    ghost var seen := {};
    assert Part(table, seen) == map[];
    assert Wanted(map[], named) == {} && FilesIn({}) == {};
    while todo != {}
      invariant seen + todo == table.Keys
      invariant Covers(wanted, Wanted(Part(table, seen), named))
      decreases todo
    {
      var uid :| uid in todo;
      WantedStep(wanted, table, seen, named, uid);
      if uid !in named && table[uid].refs != 0 {
        wanted := Add(wanted, table[uid].at, uid);
      }
      seen := seen + {uid};
      todo := todo - {uid};
    }
    assert Part(table, seen) == table;
  }

  predicate Leq(a: nat, b: nat) { a <= b }

  predicate Distinct(s: seq<nat>) {
    forall i, j :: 0 <= i < j < |s| ==> s[i] != s[j]
  }

  lemma SortedDistinctLists(collected: seq<nat>, s: set<nat>)
    requires Distinct(collected) && (set x | x in collected) == s
    ensures Order.SortBy(Leq, collected) == IdsOf(s)
  {
    var ids := Order.SortBy(Leq, collected);
    Order.SortBySorted(Leq, collected);
    Order.SortByPermutes(Leq, collected);
    assert forall x :: x in ids <==> x in multiset(ids);
    assert forall x :: x in collected <==> x in multiset(collected);
    forall i, j | 0 <= i < j < |ids|
      ensures ids[i] < ids[j]
    {
      assert Leq(ids[i], ids[j]);
      if ids[i] == ids[j] {
        TwiceCounted(ids, i, j);
        OnceCounted(collected, ids[i]);
        assert false;
      }
    }
    ListingIsUnique(ids, IdsOf(s), s);
  }

  lemma TwiceCounted(s: seq<nat>, i: nat, j: nat)
    requires i < j < |s| && s[i] == s[j]
    ensures multiset(s)[s[i]] >= 2
  {
    assert s == s[..i] + [s[i]] + s[i + 1..j] + [s[j]] + s[j + 1..];
  }

  lemma {:induction false} OnceCounted(s: seq<nat>, x: nat)
    requires Distinct(s)
    ensures multiset(s)[x] <= 1
  {
    if s != [] {
      OnceCounted(s[1..], x);
      assert s == [s[0]] + s[1..];
      if x == s[0] { assert x !in s[1..]; }
    }
  }

  /** The keys gathered in any order and then sorted. */
  method SortedIds(s: set<nat>) returns (ids: seq<nat>)
    ensures ids == IdsOf(s)
  {
    var collected: seq<nat> := [];
    var todo := s;
    while todo != {}
      invariant Distinct(collected) && (set x | x in collected) + todo == s
      invariant forall x :: x in collected ==> x !in todo
      decreases todo
    {
      var id :| id in todo;
      assert (set x | x in collected + [id]) == (set x | x in collected) + {id};
      collected := collected + [id];
      todo := todo - {id};
    }
    SortedDistinctLists(collected, s);
    ids := Order.SortBy(Leq, collected);
  }

  lemma UidsGrow(records: seq<IndexRecord>, i: nat)
    requires i < |records| && records[i].mapUid.Some?
    ensures UidsIn(records[..i + 1]) == UidsIn(records[..i]) + {records[i].mapUid.value}
  {
    assert records[..i + 1] == records[..i] + [records[i]];
  }

  function WithIndex(folders: seq<Folder>): nat {
    if folders == [] then 0 else (if ReadFolder(folders[0]).Indexed? then 1 else 0) + WithIndex(folders[1..])
  }

  function WithoutIndex(folders: seq<Folder>): nat {
    if folders == [] then 0 else (if ReadFolder(folders[0]).NoIndex? then 1 else 0) + WithoutIndex(folders[1..])
  }

  /** The places of the folders with a property. */
  ghost function Places(folders: seq<Folder>, p: Folder -> bool): set<int> {
    set i | 0 <= i < |folders| && p(folders[i])
  }

  lemma {:induction false} PlacesLast(folders: seq<Folder>, f: Folder, p: Folder -> bool)
    ensures |Places(folders + [f], p)| == |Places(folders, p)| + if p(f) then 1 else 0
  {
    var all := folders + [f];
    assert forall i :: 0 <= i < |folders| ==> all[i] == folders[i];
    assert Places(all, p) == Places(folders, p) + if p(f) then {|folders|} else {};
  }

  lemma {:induction false} WithIndexLast(folders: seq<Folder>, f: Folder)
    ensures WithIndex(folders + [f]) == WithIndex(folders) + if ReadFolder(f).Indexed? then 1 else 0
    ensures WithoutIndex(folders + [f]) == WithoutIndex(folders) + if ReadFolder(f).NoIndex? then 1 else 0
  {
    if folders == [] {
      assert folders + [f] == [f] && [f][1..] == [];
    } else {
      assert (folders + [f])[1..] == folders[1..] + [f];
      WithIndexLast(folders[1..], f);
    }
  }

  /** The two folder counters are the numbers of folders read by an index and without one. */
  lemma {:induction false} FoldersCounted(folders: seq<Folder>)
    ensures WithIndex(folders) == |Places(folders, f => ReadFolder(f).Indexed?)|
    ensures WithoutIndex(folders) == |Places(folders, f => ReadFolder(f).NoIndex?)|
    decreases |folders|
  {
    if folders == [] {
      assert Places([], f => ReadFolder(f).Indexed?) == {} && Places([], f => ReadFolder(f).NoIndex?) == {};
    } else {
      var front, last := folders[..|folders| - 1], folders[|folders| - 1];
      assert folders == front + [last];
      FoldersCounted(front);
      WithIndexLast(front, last);
      PlacesLast(front, last, f => ReadFolder(f).Indexed?);
      PlacesLast(front, last, f => ReadFolder(f).NoIndex?);
    }
  }

  /** The walker, its counters and the visitor it feeds; the visitor refuses the visit numbered `refuseAt`. */
  class Walker {
    const refuseAt: int
    var received: seq<Delivery>
    var foldersIndexed: nat
    var foldersScanned: nat
    var fromIndex: nat
    var fromRecords: nat

    constructor (refuseAt: int)
      ensures this.refuseAt == refuseAt && received == []
      ensures foldersIndexed == foldersScanned == fromIndex == fromRecords == 0
    {
      this.refuseAt := refuseAt;
      received, foldersIndexed, foldersScanned, fromIndex, fromRecords := [], 0, 0, 0, 0;
    }

    method Visit(d: Delivery) returns (ok: bool)
      modifies `received
      ensures ok <==> |old(received)| != refuseAt
      ensures received == old(received) + if ok then [d] else []
    {
      ok := |received| != refuseAt;
      if ok {
        received := received + [d];
      }
    }

    method BuildMessage(folder: string, r: IndexRecord, table: map<nat, Entry>, files: map<nat, File>)
      returns (step: Step)
      ensures step == IndexStep(folder, r, table, files)
    {
      if r.mapUid.None? || r.mapUid.value !in table {
        return Fail;
      }
      var at := table[r.mapUid.value].at;
      var stored := Find(files, at);
      if stored.None? {
        return Fail;
      }
      var flags := FlagNames(r.bits, SYSTEM_FLAGS);
      step := Deliver(Delivery(Message(folder, stored.value.body, flags + r.keywords, r.saved, r.guid), at, true));
    }

    method ReadIndex(folder: string, records: seq<IndexRecord>, table: map<nat, Entry>, files: map<nat, File>,
                     before: set<nat>)
      returns (ok: bool, done: set<nat>)
      modifies `received, `fromIndex
      ensures Ran(received, old(received), RecordSteps(folder, records, table, files), refuseAt, ok)
      ensures ok ==> done == before + UidsIn(records)
      ensures fromIndex - old(fromIndex) == |received| - |old(received)|
    {
      done := before;
      ghost var whole := RecordSteps(folder, records, table, files);
      for i := 0 to |records|
        invariant OnTrack(received, RecordSteps(folder, records[i..], table, files), old(received), whole, refuseAt)
        invariant done == before + UidsIn(records[..i])
        invariant fromIndex - old(fromIndex) == |received| - |old(received)|
      {
        var step := BuildMessage(folder, records[i], table, files);
        assert records[i..][1..] == records[i + 1..];
        ghost var rest := RecordSteps(folder, records[i + 1..], table, files);
        if step.Fail? {
          Stop(received, [step] + rest, old(received), whole, refuseAt);
          return false, done;
        }
        Advance(received, step.delivery, rest, old(received), whole, refuseAt);
        var accepted := Visit(step.delivery);
        if !accepted {
          return false, done;
        }
        UidsGrow(records, i);
        done := done + {records[i].mapUid.value};
        fromIndex := fromIndex + 1;
      }
      assert records[..|records|] == records;
      ok := true;
    }

    method ScanFile(id: nat, records: seq<StoredRecord>, offsets: map<nat, nat>, ghost wanted: set<Location>)
      returns (ok: bool)
      requires forall o :: o in offsets <==> At(id, o) in wanted
      modifies `received, `fromRecords
      ensures Ran(received, old(received), FileSteps(id, records, wanted), refuseAt, ok)
      ensures ok ==> fromRecords - old(fromRecords) == |received| - |old(received)|
      ensures 0 <= fromRecords - old(fromRecords) - (|received| - |old(received)|) <= 1
    {
      ghost var whole := FileSteps(id, records, wanted);
      for i := 0 to |records|
        invariant OnTrack(received, FileSteps(id, records[i..], wanted), old(received), whole, refuseAt)
        invariant fromRecords - old(fromRecords) == |received| - |old(received)|
      {
        var r := records[i];
        assert records[i..][1..] == records[i + 1..];
        ghost var rest := FileSteps(id, records[i + 1..], wanted);
        if r.offset in offsets {
          if !r.home.Named? || r.home.folder == "" {
            Stop(received, [Fail] + rest, old(received), whole, refuseAt);
            return false;
          }
          var d := Delivery(Message(r.home.folder, r.body, [], r.received, r.guid), At(id, r.offset), false);
          fromRecords := fromRecords + 1;
          Advance(received, d, rest, old(received), whole, refuseAt);
          var accepted := Visit(d);
          if !accepted {
            return false;
          }
        } else {
          assert FileSteps(id, records[i..], wanted) == rest;
        }
      }
      ok := true;
    }

    /** One storage file: opened, walked, and its damage reported after the records before it. */
    method ScanOne(id: nat, files: map<nat, File>, offsets: map<nat, nat>, ghost wanted: set<Location>)
      returns (ok: bool)
      requires forall o :: o in offsets <==> At(id, o) in wanted
      modifies `received, `fromRecords
      ensures Ran(received, old(received), ScanFileSteps(id, files, wanted), refuseAt, ok)
      ensures ok ==> fromRecords - old(fromRecords) == |received| - |old(received)|
      ensures 0 <= fromRecords - old(fromRecords) - (|received| - |old(received)|) <= 1
    {
      if id !in files {
        return false;
      }
      ok := ScanFile(id, files[id].records, offsets, wanted);
      ghost var walked := FileSteps(id, files[id].records, wanted);
      ghost var tail: seq<Step> := if files[id].damaged then [Fail] else [];
      CompletesConcat(walked, tail, refuseAt, |old(received)|);
      DeliveredConcat(walked, tail, refuseAt, |old(received)|);
      if files[id].damaged {
        ok := false;
      }
    }

    method ScanStore(files: map<nat, File>, table: map<nat, Entry>, done: set<nat>) returns (ok: bool)
      modifies `received, `fromRecords
      ensures var wanted := Wanted(table, done);
              Ran(received, old(received), ScanSteps(IdsOf(FilesIn(wanted)), files, wanted), refuseAt, ok)
      ensures ok ==> fromRecords - old(fromRecords) == |received| - |old(received)|
      ensures 0 <= fromRecords - old(fromRecords) - (|received| - |old(received)|) <= 1
    {
      ghost var locations := Wanted(table, done);
      var wanted := CollectWanted(table, done);
      var ids := SortedIds(wanted.Keys);
      ghost var whole := ScanSteps(ids, files, locations);
      for i := 0 to |ids|
        invariant OnTrack(received, ScanSteps(ids[i..], files, locations), old(received), whole, refuseAt)
        invariant fromRecords - old(fromRecords) == |received| - |old(received)|
      {
        assert ids[i] in (set x | x in ids);
        assert ids[i..][1..] == ids[i + 1..];
        ghost var mid := received;
        ghost var part, rest := ScanFileSteps(ids[i], files, locations), ScanSteps(ids[i + 1..], files, locations);
        var went := ScanOne(ids[i], files, wanted[ids[i]], locations);
        if !went {
          StopWithin(received, mid, part, rest, old(received), whole, refuseAt);
          return false;
        }
        Continue(received, mid, part, rest, old(received), whole, refuseAt);
      }
      ok := true;
    }

    /** The index branch of the walk: folder by folder, noting which map uids it has delivered. */
    method ReadFolders(folders: seq<Folder>, table: map<nat, Entry>, files: map<nat, File>)
      returns (ok: bool, done: set<nat>)
      modifies `received, `fromIndex, `foldersIndexed, `foldersScanned
      ensures Ran(received, old(received), IndexSteps(folders, table, files), refuseAt, ok)
      ensures ok ==> done == NamedUids(folders)
      ensures fromIndex - old(fromIndex) == |received| - |old(received)|
      ensures ok ==> foldersIndexed == old(foldersIndexed) + WithIndex(folders)
      ensures ok ==> foldersScanned == old(foldersScanned) + WithoutIndex(folders)
    {
      done := {};
      ghost var whole := IndexSteps(folders, table, files);
      for i := 0 to |folders|
        invariant OnTrack(received, IndexSteps(folders[i..], table, files), old(received), whole, refuseAt)
        invariant done + NamedUids(folders[i..]) == NamedUids(folders)
        invariant fromIndex - old(fromIndex) == |received| - |old(received)|
        invariant foldersIndexed + WithIndex(folders[i..]) == old(foldersIndexed) + WithIndex(folders)
        invariant foldersScanned + WithoutIndex(folders[i..]) == old(foldersScanned) + WithoutIndex(folders)
      {
        assert folders[i..][1..] == folders[i + 1..];
        ghost var mid, rest := received, IndexSteps(folders[i + 1..], table, files);
        match ReadFolder(folders[i])
        case Broken =>
          Stop(received, [Fail] + rest, old(received), whole, refuseAt);
          return false, done;
        case NoIndex =>
          assert [] + rest == rest;
          foldersScanned := foldersScanned + 1;
        case Indexed(records) =>
          foldersIndexed := foldersIndexed + 1;
          ghost var part := RecordSteps(folders[i].name, records, table, files);
          ok, done := ReadIndex(folders[i].name, records, table, files, done);
          if !ok {
            StopWithin(received, mid, part, rest, old(received), whole, refuseAt);
            return;
          }
          Continue(received, mid, part, rest, old(received), whole, refuseAt);
      }
      ok := true;
    }

    method Walk(store: Store) returns (ok: bool)
      modifies this
      ensures Ran(received, old(received), Plan(store), refuseAt, ok)
      ensures ok ==> foldersIndexed == old(foldersIndexed) + WithIndex(store.folders)
      ensures ok ==> foldersScanned == old(foldersScanned) + WithoutIndex(store.folders)
      ensures ok ==> fromIndex == old(fromIndex) + |IndexSteps(store.folders, Table(store.entries), store.files)|
      ensures ok ==> fromIndex + fromRecords == old(fromIndex) + old(fromRecords) + |Plan(store)|
    {
      var table := BuildTable(store.entries);
      ghost var index := IndexSteps(store.folders, table, store.files);
      ghost var wanted := Wanted(table, NamedUids(store.folders));
      ghost var scan := ScanSteps(IdsOf(FilesIn(wanted)), store.files, wanted);
      var done;
      ok, done := ReadFolders(store.folders, table, store.files);
      ghost var mid := received;
      if !ok {
        StopWithin(received, old(received), index, scan, old(received), Plan(store), refuseAt);
        return;
      }
      Continue(received, old(received), index, scan, old(received), Plan(store), refuseAt);
      CompletesDelivers(index, refuseAt, |old(received)|);
      ok := ScanStore(store.files, table, done);
      if ok {
        CompletesDelivers(scan, refuseAt, |mid|);
      }
    }
  }

  method BuildTable(entries: seq<Entry>) returns (table: map<nat, Entry>)
    ensures table == Table(entries)
  {
    table := map[];
    for i := 0 to |entries|
      invariant table == Table(entries[..i])
    {
      assert entries[..i + 1][..i] == entries[..i];
      table := table[entries[i].mapUid := entries[i]];
    }
    assert entries[..|entries|] == entries;
  }
}
