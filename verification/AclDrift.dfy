/** The drift report: the rebuild's walk compared with the index instead of written into it. */
module AclDrift {
  import opened Basics
  import opened Acl
  import opened AclEdits
  import opened AclIndex
  import opened AclList
  import opened AclRebuild
  import opened Order

  /** One mailbox's rows as the report keys them: signed identifier text to rights. */
  type Cells = map<string, string>

  function CellsOf(acl: ACL): Cells {
    if acl == [] then map[]
    else CellsOf(acl[..|acl| - 1])[Named(KeyOf(acl[|acl| - 1])) := acl[|acl| - 1].rights]
  }

  function EntriesOf(index: Index, mailbox: string): ACL {
    if index == [] then []
    else
      var last := index[|index| - 1];
      EntriesOf(index[..|index| - 1], mailbox) + if last.mailbox == mailbox then [last.entry] else []
  }

  datatype Cell = Cell(id: string, rights: string)

  datatype Mismatch = Mismatch(id: string, onFile: string, inIndex: string)

  /** How the index differs from the files: rows only on file, only in the index, and with other rights. */
  datatype Drift = Drift(missing: set<Cell>, stale: set<Cell>, mismatched: set<Mismatch>)

  const NO_DRIFT := Drift({}, {}, {})

  function RowsIn(cells: Cells): set<Cell> {
    set id | id in cells :: Cell(id, cells[id])
  }

  function Diff(due: Cells, have: Cells): Drift {
    Drift(
      set id | id in due && id !in have :: Cell(id, due[id]),
      set id | id in have && id !in due :: Cell(id, have[id]),
      set id | id in due && id in have && due[id] != have[id] :: Mismatch(id, due[id], have[id]))
  }

  function Patch(rows: set<Cell>, d: Drift): set<Cell> {
    rows - d.stale - (set x | x in d.mismatched :: Cell(x.id, x.inIndex))
    + d.missing + (set x | x in d.mismatched :: Cell(x.id, x.onFile))
  }

  /** The three lists name different rows, and applying them turns what is there into what is due. */
  lemma PatchRepairs(due: Cells, have: Cells)
    ensures Patch(RowsIn(have), Diff(due, have)) == RowsIn(due)
  {
    var d := Diff(due, have);
    var patched := Patch(RowsIn(have), d);
    forall c | c in RowsIn(due)
      ensures c in patched
    {
      if c.id !in have {
        assert c in d.missing;
      } else if have[c.id] != c.rights {
        assert Mismatch(c.id, c.rights, have[c.id]) in d.mismatched;
      } else {
        assert c in RowsIn(have);
      }
    }
    forall c | c in patched
      ensures c in RowsIn(due)
    {
      assert c in RowsIn(have) && c.id !in due ==> c in d.stale;
      assert c in RowsIn(have) && c.id in due && due[c.id] != c.rights ==>
               Mismatch(c.id, due[c.id], c.rights) in d.mismatched;
    }
  }

  predicate Disjoint(d: Drift) {
    && (forall c, x :: c in d.missing && x in d.stale ==> c.id != x.id)
    && (forall c, x :: c in d.missing && x in d.mismatched ==> c.id != x.id)
    && (forall c, x :: c in d.stale && x in d.mismatched ==> c.id != x.id)
  }

  lemma ListsDisjoint(due: Cells, have: Cells)
    ensures Disjoint(Diff(due, have))
  {
  }

  lemma CleanIffEqual(due: Cells, have: Cells)
    ensures Diff(due, have) == NO_DRIFT <==> due == have
  {
    if due == have {
      assert Diff(due, have) == NO_DRIFT;
    }
    if Diff(due, have) == NO_DRIFT {
      forall id
        ensures id in due <==> id in have
        ensures id in due && id in have ==> due[id] == have[id]
      {
        DriftingId(due, have, id);
      }
    }
  }

  lemma DriftingId(due: Cells, have: Cells, id: string)
    ensures (id in due && id !in have) ==> Diff(due, have).missing != {}
    ensures (id in have && id !in due) ==> Diff(due, have).stale != {}
    ensures (id in due && id in have && due[id] != have[id]) ==> Diff(due, have).mismatched != {}
  {
    var d := Diff(due, have);
    if id in due {
      assert id !in have ==> Cell(id, due[id]) in d.missing;
      assert id in have && due[id] != have[id] ==> Mismatch(id, due[id], have[id]) in d.mismatched;
    } else if id in have {
      assert Cell(id, have[id]) in d.stale;
    }
  }

  // ---------------------------------------------------------------- cells against lookups

  predicate ValidIds(acl: ACL) {
    forall e :: e in acl ==> Valid(e.id)
  }

  lemma NamedInjective(a: Key, b: Key)
    requires Valid(a.id) && Valid(b.id) && Named(a) == Named(b)
    ensures a == b
  {
    NamedReadsBack(a);
    NamedReadsBack(b);
  }

  lemma {:induction false} CellIsLookup(acl: ACL, k: Key)
    requires ValidIds(acl) && Valid(k.id)
    ensures Named(k) in CellsOf(acl) <==> Lookup(acl, k).Some?
    ensures Lookup(acl, k).Some? ==> CellsOf(acl)[Named(k)] == Lookup(acl, k).value
  {
    if acl != [] {
      var front, last := acl[..|acl| - 1], acl[|acl| - 1];
      CellIsLookup(front, k);
      assert last in acl && forall e :: e in front ==> e in acl;
      if Named(k) == Named(KeyOf(last)) {
        NamedInjective(k, KeyOf(last));
      }
    }
  }

  lemma {:induction false} CellHasKey(acl: ACL, id: string) returns (k: Key)
    requires ValidIds(acl) && id in CellsOf(acl)
    ensures Valid(k.id) && Named(k) == id
  {
    var front, last := acl[..|acl| - 1], acl[|acl| - 1];
    if id == Named(KeyOf(last)) {
      k := KeyOf(last);
      assert last in acl;
    } else {
      assert forall e :: e in front ==> e in acl;
      k := CellHasKey(front, id);
    }
  }

  ghost predicate SameLookups(a: ACL, b: ACL) {
    forall k :: Lookup(a, k) == Lookup(b, k)
  }

  lemma {:induction false} LookupIsValid(acl: ACL, k: Key)
    requires ValidIds(acl) && Lookup(acl, k).Some?
    ensures Valid(k.id)
  {
    LookupFromEntry(acl, k);
  }

  lemma CellsFollow(a: ACL, b: ACL)
    requires ValidIds(a) && ValidIds(b) && SameLookups(a, b)
    ensures CellsOf(a) == CellsOf(b)
  {
    forall id | id in CellsOf(a)
      ensures id in CellsOf(b) && CellsOf(a)[id] == CellsOf(b)[id]
    {
      var k := CellHasKey(a, id);
      CellIsLookup(a, k);
      CellIsLookup(b, k);
    }
    forall id | id in CellsOf(b)
      ensures id in CellsOf(a)
    {
      var k := CellHasKey(b, id);
      CellIsLookup(a, k);
      CellIsLookup(b, k);
    }
  }

  lemma LookupsFollow(a: ACL, b: ACL, k: Key)
    requires ValidIds(a) && ValidIds(b) && CellsOf(a) == CellsOf(b)
    ensures Lookup(a, k) == Lookup(b, k)
  {
    if Valid(k.id) {
      CellIsLookup(a, k);
      CellIsLookup(b, k);
    } else {
      if Lookup(a, k).Some? { LookupIsValid(a, k); }
      if Lookup(b, k).Some? { LookupIsValid(b, k); }
    }
  }

  /** The report's cells agree exactly when every key is granted the same. */
  lemma CellsEqualIff(a: ACL, b: ACL)
    requires ValidIds(a) && ValidIds(b)
    ensures CellsOf(a) == CellsOf(b) <==> SameLookups(a, b)
  {
    if SameLookups(a, b) {
      CellsFollow(a, b);
    }
    if CellsOf(a) == CellsOf(b) {
      forall k ensures Lookup(a, k) == Lookup(b, k) { LookupsFollow(a, b, k); }
    }
  }

  lemma {:induction false} LookupConcat(a: ACL, b: ACL, k: Key)
    ensures Lookup(a + b, k) == if Lookup(b, k).Some? then Lookup(b, k) else Lookup(a, k)
    decreases |b|
  {
    if b == [] {
      assert a + b == a;
    } else {
      assert (a + b)[..|a + b| - 1] == a + b[..|b| - 1];
      LookupConcat(a, b[..|b| - 1], k);
    }
  }

  lemma {:induction false} EntriesLookup(index: Index, mailbox: string, k: Key)
    ensures Lookup(EntriesOf(index, mailbox), k) == RightsAt(index, mailbox, k)
    decreases |index|
  {
    if index != [] {
      var front, last := index[..|index| - 1], index[|index| - 1];
      EntriesLookup(front, mailbox, k);
      if last.mailbox == mailbox {
        LookupSnoc(EntriesOf(front, mailbox), last.entry, k);
      } else {
        assert EntriesOf(front, mailbox) + [] == EntriesOf(front, mailbox);
      }
    }
  }

  predicate ValidIndex(index: Index) {
    forall r :: r in index ==> Valid(r.entry.id)
  }

  lemma {:induction false} EntriesValid(index: Index, mailbox: string)
    requires ValidIndex(index)
    ensures ValidIds(EntriesOf(index, mailbox))
    decreases |index|
  {
    if index != [] {
      assert forall r :: r in index[..|index| - 1] ==> r in index;
      assert index[|index| - 1] in index;
      EntriesValid(index[..|index| - 1], mailbox);
    }
  }

  // ---------------------------------------------------------------- the report

  function Names(index: Index, folders: seq<string>, all: bool): set<string> {
    (set f | f in folders) + (set r | r in index && InScope(folders, all, r.mailbox) :: r.mailbox)
  }

  function DriftAt(index: Index, files: Files, present: set<string>, folders: seq<string>, mailbox: string): Drift {
    Diff(CellsOf(Due(files, present, folders, mailbox)), CellsOf(EntriesOf(index, mailbox)))
  }

  type Report = map<string, Drift>

  function DriftTable(index: Index, files: Files, present: set<string>, folders: seq<string>,
                      names: set<string>): Report {
    map m | m in names && DriftAt(index, files, present, folders, m) != NO_DRIFT ::
      DriftAt(index, files, present, folders, m)
  }

  /** The folders that drifted, and how; None when a file in scope or the index itself cannot be read. */
  function Reported(text: string, files: Files, present: set<string>, folders: seq<string>, all: bool): Option<Report> {
    if (exists f :: f in folders && Resolve(files, present, f).None?) || Load(text).None? then None
    else Some(DriftTable(Load(text).value, files, present, folders, Names(Load(text).value, folders, all)))
  }

  predicate InSync(report: Option<Report>) {
    report == Some(map[])
  }

  lemma {:induction false} ReportFailsWithRebuild(files: Files, present: set<string>, folders: seq<string>)
    ensures Collect(files, present, folders).None? <==> exists f :: f in folders && Resolve(files, present, f).None?
    decreases |folders|
  {
    if folders != [] {
      var front, last := folders[..|folders| - 1], folders[|folders| - 1];
      ReportFailsWithRebuild(files, present, front);
      assert folders == front + [last];
      assert last in folders;
    }
  }

  ghost predicate Agrees(index: Index, files: Files, present: set<string>, folders: seq<string>, mailbox: string) {
    forall k :: RightsAt(index, mailbox, k) == Lookup(Due(files, present, folders, mailbox), k)
  }

  lemma NoDriftIffAgrees(index: Index, files: Files, present: set<string>, folders: seq<string>, mailbox: string)
    requires ValidIndex(index) && ValidFiles(files)
    ensures DriftAt(index, files, present, folders, mailbox) == NO_DRIFT
       <==> Agrees(index, files, present, folders, mailbox)
  {
    var due, have := Due(files, present, folders, mailbox), EntriesOf(index, mailbox);
    EntriesValid(index, mailbox);
    CleanIffEqual(CellsOf(due), CellsOf(have));
    CellsEqualIff(due, have);
    forall k ensures Lookup(have, k) == RightsAt(index, mailbox, k) { EntriesLookup(index, mailbox, k); }
    if Agrees(index, files, present, folders, mailbox) {
      forall k ensures Lookup(due, k) == Lookup(have, k) {}
    }
    if SameLookups(due, have) {
      forall k ensures RightsAt(index, mailbox, k) == Lookup(due, k) {}
    }
  }

  lemma {:induction false} NoRows(index: Index, mailbox: string, k: Key)
    requires forall r :: r in index ==> r.mailbox != mailbox
    ensures RightsAt(index, mailbox, k) == None
    decreases |index|
  {
    if index != [] {
      assert index[|index| - 1] in index;
      NoRows(index[..|index| - 1], mailbox, k);
    }
  }

  lemma OtherNamesAgree(index: Index, files: Files, present: set<string>, folders: seq<string>, all: bool,
                        mailbox: string)
    requires InScope(folders, all, mailbox) && mailbox !in Names(index, folders, all)
    ensures Agrees(index, files, present, folders, mailbox)
  {
    forall k ensures RightsAt(index, mailbox, k) == Lookup(Due(files, present, folders, mailbox), k) {
      NoRows(index, mailbox, k);
    }
  }

  lemma TableEmptyIff(index: Index, files: Files, present: set<string>, folders: seq<string>, all: bool)
    requires ValidIndex(index) && ValidFiles(files)
    ensures DriftTable(index, files, present, folders, Names(index, folders, all)) == map[]
       <==> forall m :: InScope(folders, all, m) ==> Agrees(index, files, present, folders, m)
  {
    var report := DriftTable(index, files, present, folders, Names(index, folders, all));
    forall m
      ensures DriftAt(index, files, present, folders, m) == NO_DRIFT <==> Agrees(index, files, present, folders, m)
    {
      NoDriftIffAgrees(index, files, present, folders, m);
    }
    if report == map[] {
      forall m | InScope(folders, all, m)
        ensures Agrees(index, files, present, folders, m)
      {
        if m in Names(index, folders, all) {
          assert m !in report;
        } else {
          OtherNamesAgree(index, files, present, folders, all, m);
        }
      }
    }
    if forall m :: InScope(folders, all, m) ==> Agrees(index, files, present, folders, m) {
      forall m | m in Names(index, folders, all)
        ensures DriftAt(index, files, present, folders, m) == NO_DRIFT
      {
        assert InScope(folders, all, m);
      }
      assert report == map[];
    }
  }

  /** In sync means: the index can be read, and everywhere in scope it grants what the files do. */
  lemma InSyncIff(text: string, files: Files, present: set<string>, folders: seq<string>, all: bool)
    requires ValidFiles(files) && Collect(files, present, folders).Some?
    ensures InSync(Reported(text, files, present, folders, all))
       <==> (&& Load(text).Some?
             && forall m :: InScope(folders, all, m) ==> Agrees(Load(text).value, files, present, folders, m))
  {
    ReportFailsWithRebuild(files, present, folders);
    if Load(text).Some? {
      LoadedValid(text);
      TableEmptyIff(Load(text).value, files, present, folders, all);
    }
  }

  /** What a file grants, through no intermediary: the root's, and that of a folder that is there. */
  ghost predicate GrantsAsFiled(index: Index, files: Files, present: set<string>, f: string) {
    forall k :: RightsAt(index, f, k) == if (f == "" || f in present) && f in files && files[f].Readable?
                                         then Lookup(files[f].acl, k) else None
  }

  lemma AgreesAsFiled(index: Index, files: Files, present: set<string>, folders: seq<string>, f: string)
    requires Collect(files, present, folders).Some? && f in folders
    ensures Agrees(index, files, present, folders, f) <==> GrantsAsFiled(index, files, present, f)
  {
    CollectFailsIff(files, present, folders);
    DueIs(files, present, folders, f);
  }

  ghost predicate AllAsFiled(index: Index, files: Files, present: set<string>, folders: seq<string>) {
    forall f :: f in folders ==> GrantsAsFiled(index, files, present, f)
  }

  ghost predicate NothingElsewhere(index: Index, folders: seq<string>) {
    forall m :: m !in folders ==> NothingAt(index, m)
  }

  ghost predicate NothingAt(index: Index, m: string) {
    forall k :: RightsAt(index, m, k) == None
  }

  lemma NothingDue(files: Files, present: set<string>, folders: seq<string>, m: string, k: Key)
    requires m !in folders
    ensures Lookup(Due(files, present, folders, m), k) == None
  {
  }

  lemma NothingAgrees(index: Index, files: Files, present: set<string>, folders: seq<string>, m: string)
    requires m !in folders
    ensures Agrees(index, files, present, folders, m) <==> NothingAt(index, m)
  {
    forall k ensures Lookup(Due(files, present, folders, m), k) == None {
      NothingDue(files, present, folders, m, k);
    }
  }

  lemma NamedAgree(index: Index, files: Files, present: set<string>, folders: seq<string>)
    requires Collect(files, present, folders).Some?
    ensures (forall m :: InScope(folders, false, m) ==> Agrees(index, files, present, folders, m))
       <==> AllAsFiled(index, files, present, folders)
  {
    forall f | f in folders
      ensures Agrees(index, files, present, folders, f) <==> GrantsAsFiled(index, files, present, f)
    {
      AgreesAsFiled(index, files, present, folders, f);
    }
  }

  lemma AllAgree(index: Index, files: Files, present: set<string>, folders: seq<string>)
    requires Collect(files, present, folders).Some?
    ensures (forall m :: InScope(folders, true, m) ==> Agrees(index, files, present, folders, m))
       <==> AllAsFiled(index, files, present, folders) && NothingElsewhere(index, folders)
  {
    NamedAgree(index, files, present, folders);
    forall m | m !in folders
      ensures Agrees(index, files, present, folders, m) <==> NothingAt(index, m)
    {
      NothingAgrees(index, files, present, folders, m);
    }
  }

  /**
   * A report on everything is in sync exactly when every folder it was given is granted in the index
   * what its file grants, and no other mailbox anything; one on named folders, exactly the former.
   */
  lemma InSyncAsFiled(text: string, files: Files, present: set<string>, folders: seq<string>)
    requires ValidFiles(files) && Collect(files, present, folders).Some? && Load(text).Some?
    ensures InSync(Reported(text, files, present, folders, false))
       <==> AllAsFiled(Load(text).value, files, present, folders)
    ensures InSync(Reported(text, files, present, folders, true))
       <==> AllAsFiled(Load(text).value, files, present, folders) && NothingElsewhere(Load(text).value, folders)
  {
    InSyncIff(text, files, present, folders, false);
    InSyncIff(text, files, present, folders, true);
    NamedAgree(Load(text).value, files, present, folders);
    AllAgree(Load(text).value, files, present, folders);
  }

  lemma LoadedValid(text: string)
    requires Load(text).Some?
    ensures ValidIndex(Load(text).value)
  {
    LoadedClean(text);
  }

  // ---------------------------------------------------------------- the report predicts the write

  function DriftOf(report: Report, mailbox: string): Drift {
    if mailbox in report then report[mailbox] else NO_DRIFT
  }

  /** A mailbox as a set of report rows. */
  function CellsAt(index: Index, mailbox: string): set<Cell> {
    RowsIn(CellsOf(EntriesOf(index, mailbox)))
  }

  lemma ReportedDrift(text: string, files: Files, present: set<string>, folders: seq<string>, all: bool,
                      mailbox: string)
    requires ValidFiles(files) && Collect(files, present, folders).Some? && Load(text).Some?
    requires InScope(folders, all, mailbox)
    ensures var report := Reported(text, files, present, folders, all);
            && report.Some?
            && DriftOf(report.value, mailbox) == DriftAt(Load(text).value, files, present, folders, mailbox)
  {
    var index := Load(text).value;
    LoadedValid(text);
    ReportFailsWithRebuild(files, present, folders);
    if mailbox !in Names(index, folders, all) {
      OtherNamesAgree(index, files, present, folders, all, mailbox);
      NoDriftIffAgrees(index, files, present, folders, mailbox);
    }
  }

  /** Whatever the report lists for a mailbox, applying it gives what the mailbox's file grants. */
  lemma ReportPatchesToDue(text: string, files: Files, present: set<string>, folders: seq<string>, all: bool,
                           mailbox: string)
    requires ValidFiles(files) && Collect(files, present, folders).Some? && Load(text).Some?
    requires InScope(folders, all, mailbox)
    ensures var report := Reported(text, files, present, folders, all);
            && report.Some? && Disjoint(DriftOf(report.value, mailbox))
            && Patch(CellsAt(Load(text).value, mailbox), DriftOf(report.value, mailbox))
               == RowsIn(CellsOf(Due(files, present, folders, mailbox)))
  {
    ReportedDrift(text, files, present, folders, all, mailbox);
    PatchRepairs(CellsOf(Due(files, present, folders, mailbox)), CellsOf(EntriesOf(Load(text).value, mailbox)));
    ListsDisjoint(CellsOf(Due(files, present, folders, mailbox)), CellsOf(EntriesOf(Load(text).value, mailbox)));
  }

  lemma RebuiltLookups(text: string, files: Files, present: set<string>, folders: seq<string>, all: bool,
                       mailbox: string)
    requires ValidFiles(files) && Writable(files, present, folders) && Rebuilt(text, files, present, folders, all).Some?
    requires InScope(folders, all, mailbox)
    ensures Load(Rebuilt(text, files, present, folders, all).value).Some?
    ensures SameLookups(EntriesOf(Load(Rebuilt(text, files, present, folders, all).value).value, mailbox),
                        Due(files, present, folders, mailbox))
  {
    WritableReads(text, files, present, folders, all);
    var after := Load(Rebuilt(text, files, present, folders, all).value).value;
    forall k
      ensures Lookup(EntriesOf(after, mailbox), k) == Lookup(Due(files, present, folders, mailbox), k)
    {
      EntriesLookup(after, mailbox, k);
      RebuiltRights(text, files, present, folders, all, mailbox, k);
    }
  }

  lemma RebuiltCells(text: string, files: Files, present: set<string>, folders: seq<string>, all: bool, mailbox: string)
    requires ValidFiles(files) && Writable(files, present, folders) && Rebuilt(text, files, present, folders, all).Some?
    requires InScope(folders, all, mailbox)
    ensures Load(Rebuilt(text, files, present, folders, all).value).Some?
    ensures CellsAt(Load(Rebuilt(text, files, present, folders, all).value).value, mailbox)
         == RowsIn(CellsOf(Due(files, present, folders, mailbox)))
  {
    RebuiltLookups(text, files, present, folders, all, mailbox);
    var after := Rebuilt(text, files, present, folders, all).value;
    LoadedValid(after);
    EntriesValid(Load(after).value, mailbox);
    DueValid(files, present, folders, mailbox);
    CellsFollow(EntriesOf(Load(after).value, mailbox), Due(files, present, folders, mailbox));
  }

  lemma {:induction false} NoEntries(index: Index, mailbox: string)
    requires AllClean(index) && !CleanName(mailbox)
    ensures EntriesOf(index, mailbox) == []
    decreases |index|
  {
    if index != [] {
      assert index[|index| - 1] in index;
      assert forall r :: r in index[..|index| - 1] ==> r in index;
      NoEntries(index[..|index| - 1], mailbox);
    }
  }

  lemma SomeCell(acl: ACL)
    requires acl != []
    ensures RowsIn(CellsOf(acl)) != {}
  {
    var last := acl[|acl| - 1];
    assert Named(KeyOf(last)) in CellsOf(acl);
    assert Cell(Named(KeyOf(last)), CellsOf(acl)[Named(KeyOf(last))]) in RowsIn(CellsOf(acl));
  }

  /** Patching each mailbox in scope with its report gives its rows after the rebuild. */
  ghost predicate PatchesToRebuilt(text: string, files: Files, present: set<string>, folders: seq<string>, all: bool,
        after: string)
  {
    && Load(text).Some? && Load(after).Some? && Reported(text, files, present, folders, all).Some?
    && forall m :: InScope(folders, all, m) ==>
         Patch(CellsAt(Load(text).value, m), DriftOf(Reported(text, files, present, folders, all).value, m))
         == CellsAt(Load(after).value, m)
  }

  /**
   * The report patches the index to exactly the rebuilt one, if and only if the rebuild can write
   * every folder it read.
   */
  lemma ReportPatchesToRebuilt(text: string, files: Files, present: set<string>, folders: seq<string>, all: bool)
    requires ValidFiles(files) && Load(text).Some? && Rebuilt(text, files, present, folders, all).Some?
    ensures PatchesToRebuilt(text, files, present, folders, all, Rebuilt(text, files, present, folders, all).value)
       <==> Writable(files, present, folders)
  {
    var after := Rebuilt(text, files, present, folders, all).value;
    ReportFailsWithRebuild(files, present, folders);
    if Writable(files, present, folders) {
      WritableReads(text, files, present, folders, all);
      forall m | InScope(folders, all, m)
        ensures Patch(CellsAt(Load(text).value, m), DriftOf(Reported(text, files, present, folders, all).value, m))
             == CellsAt(Load(after).value, m)
      {
        ReportPatchesToDue(text, files, present, folders, all, m);
        RebuiltCells(text, files, present, folders, all, m);
      }
    } else {
      var f :| f in folders && Due(files, present, folders, f) != [] && !CleanName(f);
      ReportPatchesToDue(text, files, present, folders, all, f);
      SomeCell(Due(files, present, folders, f));
      if Load(after).Some? {
        LoadedClean(after);
        NoEntries(Load(after).value, f);
        assert CellsAt(Load(after).value, f) == {};
        assert InScope(folders, all, f);
      }
    }
  }

  /** Two rows of one key that grant different rights: a reader sees only the later one. */
  predicate Shadowed(index: Index, folders: seq<string>, all: bool) {
    exists a, b :: a in index && b in index && InScope(folders, all, a.mailbox)
      && a.mailbox == b.mailbox && KeyOf(a.entry) == KeyOf(b.entry) && a.entry.rights != b.entry.rights
  }

  lemma {:induction false} RightsFromRow(index: Index, mailbox: string, k: Key)
    requires RightsAt(index, mailbox, k).Some?
    ensures Row(mailbox, Entry(k.id, RightsAt(index, mailbox, k).value, k.negative)) in index
    decreases |index|
  {
    if !Is(index[|index| - 1], mailbox, k) {
      RightsFromRow(index[..|index| - 1], mailbox, k);
    }
  }

  lemma {:induction false} RowHasRights(index: Index, r: Row)
    requires r in index
    ensures RightsAt(index, r.mailbox, KeyOf(r.entry)).Some?
    decreases |index|
  {
    if !Is(index[|index| - 1], r.mailbox, KeyOf(r.entry)) {
      RowHasRights(index[..|index| - 1], r);
    }
  }

  /** A file grants each key once, so what it says about the key is its one entry. */
  lemma DueEntry(files: Files, present: set<string>, folders: seq<string>, r: Row)
    requires ValidFiles(files)
    ensures r.entry in Due(files, present, folders, r.mailbox)
       <==> Lookup(Due(files, present, folders, r.mailbox), KeyOf(r.entry)) == Some(r.entry.rights)
  {
    var due := Due(files, present, folders, r.mailbox);
    if r.entry in due {
      var i :| 0 <= i < |due| && due[i] == r.entry;
      LookupOnly(due, i);
    }
    if Lookup(due, KeyOf(r.entry)) == Some(r.entry.rights) {
      LookupFromEntry(due, KeyOf(r.entry));
      var e :| e in due && KeyOf(e) == KeyOf(r.entry);
      var i :| 0 <= i < |due| && due[i] == e;
      LookupOnly(due, i);
    }
  }

  ghost predicate SameRows(a: Index, b: Index) {
    forall r :: r in a <==> r in b
  }

  lemma RebuiltRows(text: string, files: Files, present: set<string>, folders: seq<string>, all: bool, r: Row)
    requires ValidFiles(files) && Writable(files, present, folders) && Rebuilt(text, files, present, folders, all).Some?
    requires Load(text).Some?
    ensures Load(Rebuilt(text, files, present, folders, all).value).Some?
    ensures r in Load(Rebuilt(text, files, present, folders, all).value).value
       <==> if InScope(folders, all, r.mailbox) then r.entry in Due(files, present, folders, r.mailbox)
            else r in Load(text).value
  {
    var found := Collect(files, present, folders).value;
    WritableReads(text, files, present, folders, all);
    BaseClean(text, folders, all);
    RewriteMember(Base(text, folders, all), found, r);
    CollectedRows(files, present, folders, r);
    FilterMembers((x: Row) => x.mailbox !in folders, Load(text).value, r);
  }

  /** The rebuild would leave a reader with the rows there are. */
  ghost predicate Unchanged(text: string, after: string) {
    Load(text).Some? && Load(after).Some? && SameRows(Load(text).value, Load(after).value)
  }

  lemma SameRowsSameRights(text: string, files: Files, present: set<string>, folders: seq<string>, all: bool,
                           m: string, k: Key)
    requires ValidFiles(files) && Writable(files, present, folders)
    requires Rebuilt(text, files, present, folders, all).Some? && InScope(folders, all, m)
    requires Unchanged(text, Rebuilt(text, files, present, folders, all).value)
    ensures RightsAt(Load(text).value, m, k) == Lookup(Due(files, present, folders, m), k)
  {
    var due, index := Due(files, present, folders, m), Load(text).value;
    if RightsAt(index, m, k).Some? {
      var r := Row(m, Entry(k.id, RightsAt(index, m, k).value, k.negative));
      RightsFromRow(index, m, k);
      RebuiltRows(text, files, present, folders, all, r);
      DueEntry(files, present, folders, r);
    } else if Lookup(due, k).Some? {
      var r := Row(m, Entry(k.id, Lookup(due, k).value, k.negative));
      DueEntry(files, present, folders, r);
      RebuiltRows(text, files, present, folders, all, r);
      RowHasRights(index, r);
      assert false;
    }
  }

  lemma UnchangedMeansInSync(text: string, files: Files, present: set<string>, folders: seq<string>, all: bool)
    requires ValidFiles(files) && Writable(files, present, folders)
    requires Rebuilt(text, files, present, folders, all).Some?
    requires Unchanged(text, Rebuilt(text, files, present, folders, all).value)
    ensures InSync(Reported(text, files, present, folders, all))
  {
    forall m | InScope(folders, all, m)
      ensures Agrees(Load(text).value, files, present, folders, m)
    {
      forall k ensures RightsAt(Load(text).value, m, k) == Lookup(Due(files, present, folders, m), k) {
        SameRowsSameRights(text, files, present, folders, all, m, k);
      }
    }
    InSyncIff(text, files, present, folders, all);
  }

  lemma UnchangedMeansUnshadowed(text: string, files: Files, present: set<string>, folders: seq<string>, all: bool)
    requires ValidFiles(files) && Writable(files, present, folders)
    requires Rebuilt(text, files, present, folders, all).Some?
    requires Unchanged(text, Rebuilt(text, files, present, folders, all).value)
    ensures !Shadowed(Load(text).value, folders, all)
  {
    var index := Load(text).value;
    forall a, b | a in index && b in index && InScope(folders, all, a.mailbox)
                  && a.mailbox == b.mailbox && KeyOf(a.entry) == KeyOf(b.entry)
      ensures a.entry.rights == b.entry.rights
    {
      RebuiltRows(text, files, present, folders, all, a);
      RebuiltRows(text, files, present, folders, all, b);
      DueEntry(files, present, folders, a);
      DueEntry(files, present, folders, b);
    }
  }

  lemma InSyncMeansWritable(text: string, files: Files, present: set<string>, folders: seq<string>, all: bool)
    requires ValidFiles(files) && Collect(files, present, folders).Some?
    requires InSync(Reported(text, files, present, folders, all))
    ensures Writable(files, present, folders)
  {
    InSyncIff(text, files, present, folders, all);
    LoadedClean(text);
    forall f | f in folders && Due(files, present, folders, f) != []
      ensures CleanName(f)
    {
      var due := Due(files, present, folders, f);
      DueEntryFound(due, 0);
      assert InScope(folders, all, f);
      assert Agrees(Load(text).value, files, present, folders, f);
      if !CleanName(f) {
        UncleanHasNoRights(Load(text).value, f, KeyOf(due[0]));
      }
    }
  }

  lemma InSyncMeansUnchanged(text: string, files: Files, present: set<string>, folders: seq<string>, all: bool)
    requires ValidFiles(files) && Rebuilt(text, files, present, folders, all).Some?
    requires InSync(Reported(text, files, present, folders, all)) && !Shadowed(Load(text).value, folders, all)
    ensures Unchanged(text, Rebuilt(text, files, present, folders, all).value)
  {
    InSyncIff(text, files, present, folders, all);
    InSyncMeansWritable(text, files, present, folders, all);
    WritableReads(text, files, present, folders, all);
    var index := Load(text).value;
    forall r
      ensures r in index <==> r in Load(Rebuilt(text, files, present, folders, all).value).value
    {
      RebuiltRows(text, files, present, folders, all, r);
      if InScope(folders, all, r.mailbox) {
        assert Agrees(index, files, present, folders, r.mailbox);
        DueEntry(files, present, folders, r);
        if r in index {
          RowHasRights(index, r);
          RightsFromRow(index, r.mailbox, KeyOf(r.entry));
        }
        if RightsAt(index, r.mailbox, KeyOf(r.entry)) == Some(r.entry.rights) {
          RightsFromRow(index, r.mailbox, KeyOf(r.entry));
        }
      }
    }
  }

  /**
   * The report is exact: it says in sync, and no row in scope is shadowed by a later one of its
   * key, if and only if the rebuild can write every folder it reads and would change no row.
   */
  lemma ReportExact(text: string, files: Files, present: set<string>, folders: seq<string>, all: bool)
    requires ValidFiles(files) && Rebuilt(text, files, present, folders, all).Some? && Load(text).Some?
    ensures (InSync(Reported(text, files, present, folders, all)) && !Shadowed(Load(text).value, folders, all))
       <==> (Writable(files, present, folders) && Unchanged(text, Rebuilt(text, files, present, folders, all).value))
  {
    if InSync(Reported(text, files, present, folders, all)) && !Shadowed(Load(text).value, folders, all) {
      InSyncMeansWritable(text, files, present, folders, all);
      InSyncMeansUnchanged(text, files, present, folders, all);
    }
    if Writable(files, present, folders) && Unchanged(text, Rebuilt(text, files, present, folders, all).value) {
      UnchangedMeansInSync(text, files, present, folders, all);
      UnchangedMeansUnshadowed(text, files, present, folders, all);
    }
  }

  /** Right after a rebuild the report is in sync, if and only if the rebuild could write every folder it read. */
  lemma InSyncAfterRebuild(text: string, files: Files, present: set<string>, folders: seq<string>, all: bool)
    requires ValidFiles(files) && Rebuilt(text, files, present, folders, all).Some?
    ensures InSync(Reported(Rebuilt(text, files, present, folders, all).value, files, present, folders, all))
       <==> Writable(files, present, folders)
  {
    var after := Rebuilt(text, files, present, folders, all).value;
    if Writable(files, present, folders) {
      WritableReads(text, files, present, folders, all);
      forall m | InScope(folders, all, m)
        ensures Agrees(Load(after).value, files, present, folders, m)
      {
        forall k ensures RightsAt(Load(after).value, m, k) == Lookup(Due(files, present, folders, m), k) {
          RebuiltRights(text, files, present, folders, all, m, k);
        }
      }
      InSyncIff(after, files, present, folders, all);
    }
    if InSync(Reported(after, files, present, folders, all)) {
      InSyncMeansWritable(after, files, present, folders, all);
    }
  }

  lemma {:induction false} DueEntryFound(acl: ACL, i: nat)
    requires i < |acl|
    ensures Lookup(acl, KeyOf(acl[i])).Some?
  {
    if i < |acl| - 1 {
      DueEntryFound(acl[..|acl| - 1], i);
    }
  }
}
