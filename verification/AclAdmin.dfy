/** The admin operations on a namespace's ACL store: set, apply, rebuild and the dry run. */
module AclAdmin {
  import opened Basics
  import opened Acl
  import opened AclEdits
  import opened AclIndex
  import opened AclList
  import opened AclRebuild
  import opened AclDrift
  import opened Order

  // ---------------------------------------------------------------- one folder written

  function Others(index: Index, folder: string): Index {
    Filter((r: Row) => r.mailbox != folder, index)
  }

  /**
   * The index file after a folder's ACL was written: its rows replaced by the list the writer was
   * given. None when the index cannot be read.
   */
  function Updated(text: string, folder: string, next: ACL): Option<string> {
    if Load(text).None? then None else Some(Write(Others(Load(text).value, folder) + RowsFor(folder, next)))
  }

  lemma RowsForMembers(folder: string, acl: ACL, r: Row)
    ensures r in RowsFor(folder, acl) <==> r.mailbox == folder && r.entry in acl
  {
    if r.mailbox == folder && r.entry in acl {
      var i :| 0 <= i < |acl| && acl[i] == r.entry;
      assert RowsFor(folder, acl)[i] == r;
    }
  }

  lemma OthersClean(text: string, folder: string)
    requires Load(text).Some?
    ensures AllClean(Others(Load(text).value, folder))
  {
    LoadedClean(text);
    forall r | r in Others(Load(text).value, folder)
      ensures r in Load(text).value
    {
      FilterMembers((x: Row) => x.mailbox != folder, Load(text).value, r);
    }
  }

  /** The rows of a mailbox, with their number, and the rights they give. */
  ghost predicate SameAt(a: Index, b: Index, mailbox: string) {
    && multiset(RowsAt(a, mailbox)) == multiset(RowsAt(b, mailbox))
    && forall k :: RightsAt(a, mailbox, k) == RightsAt(b, mailbox, k)
  }

  lemma AddedClean(folder: string, next: ACL)
    requires ValidACL(next) && (next == [] || CleanName(folder))
    ensures AllClean(RowsFor(folder, next)) && ReadAll(RowsFor(folder, next)) == Some(RowsFor(folder, next))
    ensures forall m :: Faithful(RowsFor(folder, next), m)
  {
    var added := RowsFor(folder, next);
    forall r | r in added ensures CleanName(r.mailbox) && ValidEntry(r.entry) { RowsForMembers(folder, next, r); }
    CleanReadAll(added);
    forall m ensures Faithful(added, m) { FaithfulWhenClean(added, m); }
  }

  lemma RowsAtOthers(index: Index, folder: string, mailbox: string)
    requires mailbox != folder
    ensures RowsAt(Others(index, folder), mailbox) == RowsAt(index, mailbox)
  {
    FilterTwice((r: Row) => For(mailbox, r), (r: Row) => r.mailbox != folder, index);
  }

  lemma {:induction false} FilterTwice(inner: Row -> bool, outer: Row -> bool, s: Index)
    requires forall r :: inner(r) ==> outer(r)
    ensures Filter(inner, Filter(outer, s)) == Filter(inner, s)
  {
    if s != [] {
      FilterTwice(inner, outer, s[1..]);
      if outer(s[0]) {
        FilterCons(inner, s[0], Filter(outer, s[1..]));
      } else {
        assert Filter(outer, s) == Filter(outer, s[1..]);
      }
    }
  }

  lemma {:induction false} NoneAt(rows: Index, mailbox: string)
    requires forall r :: r in rows ==> r.mailbox != mailbox
    ensures RowsAt(rows, mailbox) == []
  {
    if rows != [] {
      assert rows[0] in rows && forall r :: r in rows[1..] ==> r in rows;
      NoneAt(rows[1..], mailbox);
    }
  }

  lemma UpdatedElsewhere(text: string, folder: string, next: ACL, mailbox: string)
    requires Load(text).Some? && ValidACL(next) && (next == [] || CleanName(folder)) && mailbox != folder
    ensures Load(Updated(text, folder, next).value).Some?
    ensures SameAt(Load(text).value, Load(Updated(text, folder, next).value).value, mailbox)
  {
    var index, kept, added := Load(text).value, Others(Load(text).value, folder), RowsFor(folder, next);
    OthersClean(text, folder);
    AddedClean(folder, next);
    RewriteRowsAt(kept, added, mailbox);
    RowsAtOthers(index, folder, mailbox);
    forall r | r in added ensures r.mailbox != mailbox { RowsForMembers(folder, next, r); }
    NoneAt(added, mailbox);
    forall k
      ensures RightsAt(index, mailbox, k) == RightsAt(Load(Updated(text, folder, next).value).value, mailbox, k)
    {
      RewriteRights(kept, added, mailbox, k);
      RightsConcat(kept, added, mailbox, k);
      RightsRowsFor(folder, next, mailbox, k);
      RightsFiltered(index, (r: Row) => r.mailbox != folder, mailbox, k);
    }
  }

  lemma UpdatedHere(text: string, folder: string, next: ACL, k: Key)
    requires Load(text).Some? && ValidACL(next) && (next == [] || CleanName(folder))
    ensures Load(Updated(text, folder, next).value).Some?
    ensures RightsAt(Load(Updated(text, folder, next).value).value, folder, k) == Lookup(Collapsed(next), k)
  {
    var index, kept, added := Load(text).value, Others(Load(text).value, folder), RowsFor(folder, next);
    OthersClean(text, folder);
    AddedClean(folder, next);
    RewriteRights(kept, added, folder, k);
    RightsConcat(kept, added, folder, k);
    RightsRowsFor(folder, next, folder, k);
    RightsFiltered(index, (r: Row) => r.mailbox != folder, folder, k);
    CollapseKeepsLookup(next, k);
  }

  /** The index can be read, file and index grant the same for the folder, and no other mailbox is touched. */
  ghost predicate InStep(text: string, after: string, folder: string, next: ACL) {
    && Load(text).Some? && Load(after).Some?
    && (forall k :: RightsAt(Load(after).value, folder, k) == Lookup(Collapsed(next), k))
    && (forall m :: m != folder ==> SameAt(Load(text).value, Load(after).value, m))
  }

  /** A write does all that, if and only if it writes nothing or under a name the format carries. */
  lemma UpdatedInStepIff(text: string, folder: string, next: ACL)
    requires Load(text).Some? && ValidACL(next)
    ensures InStep(text, Updated(text, folder, next).value, folder, next) <==> (next == [] || CleanName(folder))
  {
    var after := Updated(text, folder, next).value;
    if next == [] || CleanName(folder) {
      UpdatedHere(text, folder, next, Key(Anyone, false));
      forall k
        ensures RightsAt(Load(after).value, folder, k) == Lookup(Collapsed(next), k)
      {
        UpdatedHere(text, folder, next, k);
      }
      forall m | m != folder
        ensures SameAt(Load(text).value, Load(after).value, m)
      {
        UpdatedElsewhere(text, folder, next, m);
      }
    } else if Load(after).Some? {
      LoadedClean(after);
      var k := KeyOf(next[0]);
      UncleanHasNoRights(Load(after).value, folder, k);
      DueEntryFound(next, 0);
      CollapseKeepsLookup(next, k);
    }
  }

  /** The list grants one key twice, differently. */
  predicate Conflicting(acl: ACL) {
    exists a, b :: a in acl && b in acl && KeyOf(a) == KeyOf(b) && a.rights != b.rights
  }

  lemma UpdatedRow(text: string, folder: string, next: ACL, e: Entry)
    requires Load(text).Some? && ValidACL(next) && CleanName(folder)
    ensures Load(Updated(text, folder, next).value).Some?
    ensures Row(folder, e) in Load(Updated(text, folder, next).value).value <==> e in next
  {
    var kept, added := Others(Load(text).value, folder), RowsFor(folder, next);
    OthersClean(text, folder);
    AddedClean(folder, next);
    RewriteMember(kept, added, Row(folder, e));
    RowsForMembers(folder, next, Row(folder, e));
    FilterMembers((x: Row) => x.mailbox != folder, Load(text).value, Row(folder, e));
  }

  /** A write leaves shadowed rows behind exactly when its list conflicts with itself, under a name that is carried. */
  lemma WriteShadowsIff(text: string, folder: string, next: ACL)
    requires ValidACL(next) && Updated(text, folder, next).Some? && Load(Updated(text, folder, next).value).Some?
    ensures Shadowed(Load(Updated(text, folder, next).value).value, [folder], false)
       <==> (CleanName(folder) && Conflicting(next))
  {
    var after := Load(Updated(text, folder, next).value).value;
    LoadedClean(Updated(text, folder, next).value);
    if CleanName(folder) && Conflicting(next) {
      var a, b :| a in next && b in next && KeyOf(a) == KeyOf(b) && a.rights != b.rights;
      UpdatedRow(text, folder, next, a);
      UpdatedRow(text, folder, next, b);
      assert InScope([folder], false, Row(folder, a).mailbox);
    }
    if Shadowed(after, [folder], false) {
      var a, b :| a in after && b in after && InScope([folder], false, a.mailbox)
        && a.mailbox == b.mailbox && KeyOf(a.entry) == KeyOf(b.entry) && a.entry.rights != b.entry.rights;
      UpdatedRow(text, folder, next, a.entry);
      UpdatedRow(text, folder, next, b.entry);
    }
  }

  lemma CollapsedValid(acl: ACL)
    requires ValidACL(acl)
    ensures ValidACL(Collapsed(acl)) && OnePerKey(Collapsed(acl))
  {
    CollapsedOnePerKey(acl);
    forall e | e in Collapsed(acl)
      ensures ValidEntry(e)
    {
      var i :| 0 <= i < |Collapsed(acl)| && Collapsed(acl)[i] == e;
      KeyIffLookup(acl, Keys(acl)[i]);
      LookupIsEntry(acl, Keys(acl)[i]);
    }
  }

  lemma {:induction false} LookupIsEntry(acl: ACL, k: Key)
    requires Lookup(acl, k).Some?
    ensures Entry(k.id, Lookup(acl, k).value, k.negative) in acl
  {
    if KeyOf(acl[|acl| - 1]) != k {
      LookupIsEntry(acl[..|acl| - 1], k);
    }
  }

  /** The files and the index right after a folder was written. */
  ghost predicate WroteAnd(text: string, files: Files, folder: string, next: ACL, text': string, files': Files) {
    Updated(text, folder, next) == Some(text') && files' == files[folder := Readable(Collapsed(next))]
  }

  lemma WrittenDue(text: string, files: Files, present: set<string>, folder: string, next: ACL, text': string,
        files': Files)
    requires WroteAnd(text, files, folder, next, text', files') && ValidFiles(files) && ValidACL(next)
    requires folder == "" || folder in present
    ensures ValidFiles(files') && Collect(files', present, [folder]).Some?
    ensures Due(files', present, [folder], folder) == Collapsed(next)
    ensures Writable(files', present, [folder]) <==> (next == [] || CleanName(folder))
  {
    CollapsedValid(next);
    assert Resolve(files', present, folder) == Some(Collapsed(next));
    assert [folder][..0] == [];
    CollapsedEmptyIff(next);
    assert folder in [folder];
  }

  lemma InSyncAfterWrite(text: string, files: Files, present: set<string>, folder: string, next: ACL, text': string,
        files': Files)
    requires WroteAnd(text, files, folder, next, text', files') && ValidFiles(files) && ValidACL(next)
    requires folder == "" || folder in present
    ensures ValidFiles(files') && Collect(files', present, [folder]).Some?
    ensures InSync(Reported(text', files', present, [folder], false)) <==> (next == [] || CleanName(folder))
    ensures Writable(files', present, [folder]) <==> (next == [] || CleanName(folder))
  {
    WrittenDue(text, files, present, folder, next, text', files');
    if next == [] || CleanName(folder) {
      UpdatedHere(text, folder, next, Key(Anyone, false));
      forall k ensures RightsAt(Load(text').value, folder, k) == Lookup(Due(files', present, [folder], folder), k) {
        UpdatedHere(text, folder, next, k);
      }
      InSyncIff(text', files', present, [folder], false);
    } else if InSync(Reported(text', files', present, [folder], false)) {
      InSyncMeansWritable(text', files', present, [folder], false);
    }
  }

  lemma CollapsedEmptyIff(acl: ACL)
    ensures Collapsed(acl) == [] <==> acl == []
  {
    if acl != [] {
      DueEntryFound(acl, 0);
      KeyIffLookup(acl, KeyOf(acl[0]));
    }
  }

  /**
   * A write is reported in sync while the rebuild it previews changes rows, exactly when its list
   * conflicts with itself.
   */
  lemma InSyncYetRebuildWritesIff(text: string, files: Files, present: set<string>, folder: string, next: ACL,
        text': string, files': Files)
    requires WroteAnd(text, files, folder, next, text', files') && ValidFiles(files) && ValidACL(next)
    requires folder == "" || folder in present
    ensures var after := Rebuilt(text', files', present, [folder], false);
            (InSync(Reported(text', files', present, [folder], false)) && after.Some? && !Unchanged(text', after.value))
            <==> (CleanName(folder) && Conflicting(next))
  {
    InSyncAfterWrite(text, files, present, folder, next, text', files');
    if next == [] || CleanName(folder) {
      UpdatedHere(text, folder, next, Key(Anyone, false));
      WriteShadowsIff(text, folder, next);
      ReportExact(text', files', present, [folder], false);
    }
  }

  // ---------------------------------------------------------------- scope isolation

  /** One rebuild of a named subset, and the files it reads. */
  datatype RebuildCall = RebuildCall(present: set<string>, folders: seq<string>, files: Files)

  /** No row the call writes reads back as a row of this mailbox. */
  predicate Quiet(q: RebuildCall, mailbox: string) {
    var found := Collect(q.files, q.present, q.folders);
    found.None? || (ReadAll(found.value).Some? && RowsAt(ReadAll(found.value).value, mailbox) == [])
  }

  function AfterCall(text: string, q: RebuildCall): string {
    var r := Rebuilt(text, q.files, q.present, q.folders, false);
    if r.Some? then r.value else text
  }

  lemma RowsAtOutside(index: Index, folders: seq<string>, mailbox: string)
    requires mailbox !in folders
    ensures RowsAt(Outside(index, folders), mailbox) == RowsAt(index, mailbox)
  {
    FilterTwice((r: Row) => For(mailbox, r), (r: Row) => r.mailbox !in folders, index);
  }

  lemma QuietRights(text: string, q: RebuildCall, mailbox: string, k: Key)
    requires Load(text).Some? && mailbox !in q.folders && Quiet(q, mailbox)
    requires Collect(q.files, q.present, q.folders).Some?
    ensures Load(AfterCall(text, q)).Some?
    ensures RightsAt(Load(AfterCall(text, q)).value, mailbox, k) == RightsAt(Load(text).value, mailbox, k)
  {
    var found := Collect(q.files, q.present, q.folders).value;
    forall r | r in found ensures r.mailbox != mailbox { CollectedRows(q.files, q.present, q.folders, r); }
    FaithfulWhenQuiet(found, mailbox);
    RebuiltRights(text, q.files, q.present, q.folders, false, mailbox, k);
  }

  /** The rows of such a mailbox afterwards: those it had, and any that a written row reads back as. */
  lemma SubsetRows(text: string, q: RebuildCall, mailbox: string)
    requires Load(text).Some? && mailbox !in q.folders && Collect(q.files, q.present, q.folders).Some?
    requires ReadAll(Collect(q.files, q.present, q.folders).value).Some?
    ensures Load(AfterCall(text, q)).Some?
    ensures multiset(RowsAt(Load(text).value, mailbox)) == multiset(RowsAt(Load(AfterCall(text, q)).value, mailbox))
       <==> RowsAt(ReadAll(Collect(q.files, q.present, q.folders).value).value, mailbox) == []
  {
    var found, kept := Collect(q.files, q.present, q.folders).value, Base(text, q.folders, false);
    BaseClean(text, q.folders, false);
    RewriteRowsAt(kept, found, mailbox);
    RowsAtOutside(Load(text).value, q.folders, mailbox);
    var more := RowsAt(ReadAll(found).value, mailbox);
    assert |multiset(more)| == |more|;
  }

  /**
   * A named-subset rebuild leaves the rows of a mailbox it was not given alone, if and only if none it
   * writes reads back as one.
   */
  lemma SubsetRebuildIsolatedIff(text: string, q: RebuildCall, mailbox: string)
    requires Load(text).Some? && mailbox !in q.folders
    ensures (Load(AfterCall(text, q)).Some? && SameAt(Load(text).value, Load(AfterCall(text, q)).value, mailbox))
       <==> Quiet(q, mailbox)
  {
    if Collect(q.files, q.present, q.folders).Some? {
      RebuiltReadable(text, q.files, q.present, q.folders, false);
      if ReadAll(Collect(q.files, q.present, q.folders).value).Some? {
        SubsetRows(text, q, mailbox);
        if Quiet(q, mailbox) {
          forall k
            ensures RightsAt(Load(text).value, mailbox, k) == RightsAt(Load(AfterCall(text, q)).value, mailbox, k)
          {
            QuietRights(text, q, mailbox, k);
          }
        }
      }
    }
  }

  /** Every call with names the format carries is quiet at every mailbox it was not given. */
  lemma WritableIsQuiet(q: RebuildCall, mailbox: string)
    requires ValidFiles(q.files) && Writable(q.files, q.present, q.folders) && mailbox !in q.folders
    ensures Quiet(q, mailbox)
  {
    if Collect(q.files, q.present, q.folders).Some? {
      var found := Collect(q.files, q.present, q.folders).value;
      FoundClean(q.files, q.present, q.folders);
      CleanReadAll(found);
      forall r | r in found ensures r.mailbox != mailbox { CollectedRows(q.files, q.present, q.folders, r); }
      NoneAt(found, mailbox);
    }
  }

  ghost predicate SubsetRun(texts: seq<string>, calls: seq<RebuildCall>) {
    && |texts| == |calls| + 1
    && forall i :: 0 <= i < |calls| ==> texts[i + 1] == AfterCall(texts[i], calls[i])
  }

  ghost predicate IsolatedAt(texts: seq<string>, mailbox: string, i: int)
    requires 0 <= i < |texts| && Load(texts[0]).Some?
  {
    Load(texts[i]).Some? && SameAt(Load(texts[0]).value, Load(texts[i]).value, mailbox)
  }

  lemma {:induction false} QuietRunIsolated(texts: seq<string>, calls: seq<RebuildCall>, mailbox: string, n: nat)
    requires SubsetRun(texts, calls) && Load(texts[0]).Some? && n <= |calls|
    requires forall i :: 0 <= i < n ==> mailbox !in calls[i].folders && Quiet(calls[i], mailbox)
    ensures IsolatedAt(texts, mailbox, n)
  {
    if n > 0 {
      QuietRunIsolated(texts, calls, mailbox, n - 1);
      SubsetRebuildIsolatedIff(texts[n - 1], calls[n - 1], mailbox);
    }
  }

  /**
   * Over every sequence of named-subset rebuilds that never name a mailbox: it keeps its rows and
   * rights throughout, if and only if no call writes a row that reads back as one of its rows.
   */
  lemma ScopeIsolation(texts: seq<string>, calls: seq<RebuildCall>, mailbox: string)
    requires SubsetRun(texts, calls) && Load(texts[0]).Some?
    requires forall i :: 0 <= i < |calls| ==> mailbox !in calls[i].folders
    ensures (forall i :: 0 <= i <= |calls| ==> IsolatedAt(texts, mailbox, i))
       <==> (forall i :: 0 <= i < |calls| ==> Quiet(calls[i], mailbox))
  {
    if forall i :: 0 <= i < |calls| ==> Quiet(calls[i], mailbox) {
      forall i | 0 <= i <= |calls| ensures IsolatedAt(texts, mailbox, i) { QuietRunIsolated(texts, calls, mailbox, i); }
    }
    if forall i :: 0 <= i <= |calls| ==> IsolatedAt(texts, mailbox, i) {
      forall i | 0 <= i < |calls|
        ensures Quiet(calls[i], mailbox)
      {
        assert IsolatedAt(texts, mailbox, i) && IsolatedAt(texts, mailbox, i + 1);
        SubsetRebuildIsolatedIff(texts[i], calls[i], mailbox);
      }
    }
  }

  /** A folder whose name spells another mailbox's row: rebuilding that folder alone adds the row. */
  lemma ForgedGrant(x: Row, y: Row, present: set<string>)
    requires AllClean([x, y]) && Line(x) + ['\n'] + y.mailbox in present
    ensures var folder := Line(x) + ['\n'] + y.mailbox;
            var q := RebuildCall(present, [folder], map[folder := Readable([y.entry])]);
            x.mailbox != folder && Load(AfterCall("", q)) == Some([x, y])
  {
    var folder := Line(x) + ['\n'] + y.mailbox;
    var files := map[folder := Readable([y.entry])];
    LoadNothing();
    assert x in [x, y];
    assert '\n' in folder;
    assert [folder][..0] == [];
    assert Resolve(files, present, folder) == Some([y.entry]);
    assert Collect(files, present, [folder]) == Some([] + RowsFor(folder, [y.entry]));
    assert RowsFor(folder, [y.entry]) == [Row(folder, y.entry)];
    assert Base("", [folder], false) == [];
    assert [] + ([] + [Row(folder, y.entry)]) == [Row(folder, y.entry)];
    ForgedRow(x, y);
  }

  /** Root and enumerated folders as their files have them, and no row of any other mailbox. */
  ghost predicate Complete(after: string, files: Files, present: set<string>, folders: seq<string>) {
    && Load(after).Some?
    && (forall r :: r in Load(after).value ==> r.mailbox in folders)
    && AllAsFiled(Load(after).value, files, present, folders)
  }

  /**
   * A rebuild of everything achieves that, whatever the index was, if and only if it can write every
   * folder it reads.
   */
  lemma AllRebuildIsCompleteIff(text: string, files: Files, present: set<string>, listed: seq<string>)
    requires ValidFiles(files) && Rebuilt(text, files, present, [""] + listed, true).Some?
    ensures Complete(Rebuilt(text, files, present, [""] + listed, true).value, files, present, [""] + listed)
       <==> Writable(files, present, [""] + listed)
  {
    var folders := [""] + listed;
    var after, found := Rebuilt(text, files, present, folders, true).value, Collect(files, present, folders).value;
    if Writable(files, present, folders) {
      WritableReads(text, files, present, folders, true);
      forall r | r in Load(after).value
        ensures r.mailbox in folders
      {
        RewriteMember(Base(text, folders, true), found, r);
        CollectedRows(files, present, folders, r);
      }
      forall m | m in folders
        ensures GrantsAsFiled(Load(after).value, files, present, m)
      {
        forall k { RebuiltRights(text, files, present, folders, true, m, k); }
        AgreesAsFiled(Load(after).value, files, present, folders, m);
      }
    } else if Load(after).Some? {
      var f :| f in folders && Due(files, present, folders, f) != [] && !CleanName(f);
      var k := KeyOf(Due(files, present, folders, f)[0]);
      LoadedClean(after);
      UncleanHasNoRights(Load(after).value, f, k);
      DueEntryFound(Due(files, present, folders, f), 0);
      AgreesAsFiled(Load(after).value, files, present, folders, f);
    }
  }

  // ---------------------------------------------------------------- the store

  function OnFile(files: Files, folder: string): ACL {
    if Get(files, folder).Some? then Get(files, folder).value else []
  }

  function CellsIn(cells: map<string, Cells>, folder: string): Cells {
    if folder in cells then cells[folder] else map[]
  }

  /** What the files of these folders grant, by folder. */
  ghost predicate HoldsDue(cells: map<string, Cells>, files: Files, present: set<string>, folders: seq<string>) {
    && (forall f :: f in cells ==> f in folders)
    && (forall f :: CellsIn(cells, f) == CellsOf(Due(files, present, folders, f)))
  }

  /** What the index grants in scope, by mailbox. */
  ghost predicate HoldsIndex(cells: map<string, Cells>, index: Index, folders: seq<string>, all: bool) {
    && cells.Keys == NamesInScope(index, folders, all)
    && (forall m :: InScope(folders, all, m) ==> CellsIn(cells, m) == CellsOf(EntriesOf(index, m)))
  }

  lemma CellsSnoc(acl: ACL, e: Entry)
    ensures CellsOf(acl + [e]) == CellsOf(acl)[Named(KeyOf(e)) := e.rights]
  {
    assert (acl + [e])[..|acl|] == acl;
  }

  method BuildCells(acl: ACL) returns (cells: Cells)
    ensures cells == CellsOf(acl)
  {
    cells := map[];
    for i := 0 to |acl|
      invariant cells == CellsOf(acl[..i])
    {
      assert acl[..i + 1] == acl[..i] + [acl[i]];
      CellsSnoc(acl[..i], acl[i]);
      cells := cells[Named(KeyOf(acl[i])) := acl[i].rights];
    }
    assert acl[..|acl|] == acl;
  }

  method ListMissing(due: Cells, have: Cells) returns (missing: set<Cell>, mismatched: set<Mismatch>)
    ensures missing == Diff(due, have).missing && mismatched == Diff(due, have).mismatched
  {
    missing, mismatched := {}, {};
    var todo := due.Keys;
    while todo != {}
      invariant todo <= due.Keys
      invariant missing == set id | id in due && id !in todo && id !in have :: Cell(id, due[id])
      invariant mismatched == set id | id in due && id !in todo && id in have && due[id] != have[id] ::
                  Mismatch(id, due[id], have[id])
      decreases todo
    {
      var id :| id in todo;
      if id !in have {
        missing := missing + {Cell(id, due[id])};
      } else if have[id] != due[id] {
        mismatched := mismatched + {Mismatch(id, due[id], have[id])};
      }
      todo := todo - {id};
    }
  }

  method ListStale(due: Cells, have: Cells) returns (stale: set<Cell>)
    ensures stale == Diff(due, have).stale
  {
    stale := {};
    var todo := have.Keys;
    while todo != {}
      invariant todo <= have.Keys
      invariant stale == set id | id in have && id !in todo && id !in due :: Cell(id, have[id])
      decreases todo
    {
      var id :| id in todo;
      if id !in due {
        stale := stale + {Cell(id, have[id])};
      }
      todo := todo - {id};
    }
  }

  /** Two folders' rows compared, in whatever order the maps are walked. */
  method Compare(due: Cells, have: Cells) returns (d: Drift)
    ensures d == Diff(due, have)
  {
    var missing, mismatched := ListMissing(due, have);
    var stale := ListStale(due, have);
    d := Drift(missing, stale, mismatched);
  }

  /** A modify request on the list a folder has: refused, or the list it leaves. */
  method Modify(owner: string, acl: ACL, identifier: string, rights: string, mode: string) returns (next: Option<ACL>)
    requires ValidACL(acl) && OnePerKey(acl)
    ensures next.Some? <==> Accepted(owner, AclEdits.Apply(identifier, rights, mode))
    ensures next.Some? ==> ValidACL(next.value) && OnePerKey(next.value)
    ensures next.Some? ==> Step(owner, acl, AclEdits.Apply(identifier, rights, mode), next.value)
    ensures next.Some? ==>
              AppliedAs(acl, next.value, Key(ParseAdmin(Bare(identifier)).value, identifier[0] == '-'), mode, rights)
  {
    if identifier == "" {
      return None;
    }
    var id := ParseAdmin(Bare(identifier));
    if id.None? {
      return None;
    }
    var letters := ParseRights(rights);
    if letters.None? || ModeOf(mode).None? {
      return None;
    }
    var how := ModeOf(mode).value;
    if NamesOwner(id.value, owner) && (how.Add? || (how.Replace? && letters.value != "")) {
      return None;
    }
    var k := Key(id.value, identifier[0] == '-');
    var after := ApplyEntry(acl, k, how, letters.value);
    EditedValid(acl, after, k, how, letters.value, Bare(identifier), rights);
    AcceptedApplies(owner, acl, after, identifier, rights, mode);
    next := Some(after);
  }

  datatype Outcome = Refused | Stored | IndexFailed

  /** A namespace's ACL files and the text of the index over them. */
  class Namespace {
    const owner: string
    var files: Files
    var text: string

    constructor (owner: string, files: Files, text: string)
      ensures this.owner == owner && this.files == files && this.text == text
    {
      this.owner, this.files, this.text := owner, files, text;
    }

    /**
     * The one write path: the file collapsed, then the index given the list as it came. An index
     * that cannot be read fails the call after the file is written.
     */
    method Update(folder: string, next: ACL) returns (ok: bool)
      modifies this
      ensures files == old(files)[folder := Readable(Collapsed(next))] && OnFile(files, folder) == Collapsed(next)
      ensures ok <==> Load(old(text)).Some?
      ensures ok ==> Updated(old(text), folder, next) == Some(text)
      ensures !ok ==> text == old(text)
    {
      var collapsed := Collapse(next);
      files := files[folder := Readable(collapsed)];
      var index := Load(text);
      ok := index.Some?;
      if ok {
        text := Write(Others(index.value, folder) + RowsFor(folder, next));
      }
    }

    method Set(folder: string, wire: seq<WireEntry>) returns (outcome: Outcome)
      requires ValidFiles(files)
      modifies this
      ensures ValidFiles(files)
      ensures outcome == Refused <==> !Accepted(owner, AclEdits.Set(wire))
      ensures outcome == Refused ==> files == old(files)
      ensures outcome != Refused ==> files == old(files)[folder := Readable(Collapsed(Decode(wire).value))]
      ensures outcome == Stored <==> Accepted(owner, AclEdits.Set(wire)) && Load(old(text)).Some?
      ensures outcome == Stored ==> Updated(old(text), folder, Decode(wire).value) == Some(text)
      ensures outcome != Stored ==> text == old(text)
      ensures Step(owner, OnFile(old(files), folder), AclEdits.Set(wire), OnFile(files, folder))
    {
      var acl := FromWire(wire);
      if acl.None? {
        return Refused;
      }
      for i := 0 to |acl.value|
        invariant forall j :: 0 <= j < i ==> !NamesOwner(acl.value[j].id, owner)
      {
        if NamesOwner(acl.value[i].id, owner) {
          assert acl.value[i] in acl.value;
          return Refused;
        }
      }
      DecodeIsValid(wire);
      CollapsedValid(acl.value);
      var indexed := Update(folder, acl.value);
      outcome := if indexed then Stored else IndexFailed;
    }

    /** A list without duplicates put in the place of the folder's. */
    method Rewrite(folder: string, next: ACL) returns (outcome: Outcome)
      requires ValidFiles(files) && ValidACL(next) && OnePerKey(next)
      modifies this
      ensures ValidFiles(files) && files == old(files)[folder := Readable(next)] && OnFile(files, folder) == next
      ensures outcome == if Load(old(text)).Some? then Stored else IndexFailed
      ensures outcome == Stored ==> Updated(old(text), folder, next) == Some(text)
      ensures outcome != Stored ==> text == old(text)
    {
      CollapseStable(next);
      var indexed := Update(folder, next);
      outcome := if indexed then Stored else IndexFailed;
    }

    /** One entry changed; a corrupt file is offered to the change as an empty one. */
    method Apply(folder: string, identifier: string, rights: string, mode: string) returns (outcome: Outcome)
      requires ValidFiles(files)
      modifies this
      ensures ValidFiles(files)
      ensures outcome == Refused <==> !Accepted(owner, AclEdits.Apply(identifier, rights, mode))
      ensures Step(owner, OnFile(old(files), folder), AclEdits.Apply(identifier, rights, mode), OnFile(files, folder))
      ensures outcome != Refused ==>
                AppliedAs(OnFile(old(files), folder), OnFile(files, folder),
                          Key(ParseAdmin(Bare(identifier)).value, identifier[0] == '-'), mode, rights)
      ensures outcome == Refused ==> files == old(files)
      ensures outcome != Refused ==> files == old(files)[folder := Readable(OnFile(files, folder))]
      ensures outcome != Refused ==> (outcome == Stored <==> Load(old(text)).Some?)
      ensures outcome == Stored ==> Updated(old(text), folder, OnFile(files, folder)) == Some(text)
      ensures outcome != Stored ==> text == old(text)
    {
      var next := Modify(owner, OnFile(files, folder), identifier, rights, mode);
      outcome := Refused;
      if next.Some? {
        outcome := Rewrite(folder, next.value);
      }
    }

    method CollectRows(present: set<string>, folders: seq<string>) returns (rows: Option<Index>)
      ensures rows == Collect(files, present, folders)
    {
      var out: Index := [];
      for i := 0 to |folders|
        invariant Collect(files, present, folders[..i]) == Some(out)
      {
        assert folders[..i + 1][..i] == folders[..i];
        var acl := Resolve(files, present, folders[i]);
        if acl.None? {
          CollectStops(files, present, folders, i);
          return None;
        }
        out := out + RowsFor(folders[i], acl.value);
      }
      assert folders[..|folders|] == folders;
      rows := Some(out);
    }

    /**
     * Merge for named folders, replace for all; nothing changes when a file, or the index to merge
     * into, cannot be read.
     */
    method Rebuild(present: set<string>, named: seq<string>, all: bool, listed: seq<string>) returns (ok: bool)
      modifies `text
      ensures all == (named != []) ==> !ok
      ensures all && named == [] ==>
                (ok <==> Collect(files, present, [""] + listed).Some?)
      ensures all && ok && ValidFiles(files) ==>
                (Complete(text, files, present, [""] + listed) <==> Writable(files, present, [""] + listed))
      ensures all && ok ==> Some(text) == Rebuilt(old(text), files, present, [""] + listed, true)
      ensures !all && named != [] ==>
                (ok <==> Collect(files, present, named).Some? && Load(old(text)).Some?)
      ensures !all && ok ==> Some(text) == Rebuilt(old(text), files, present, named, false)
      ensures !ok ==> text == old(text)
    {
      if all == (named != []) {
        return false;
      }
      var folders := if all then [""] + listed else named;
      if all && ValidFiles(files) && Collect(files, present, folders).Some? {
        AllRebuildIsCompleteIff(text, files, present, listed);
      }
      var rows := CollectRows(present, folders);
      if rows.None? {
        return false;
      }
      var kept: Index := [];
      if !all {
        var index := Load(text);
        if index.None? {
          return false;
        }
        kept := KeepOutside(index.value, folders);
      }
      text := Write(kept + rows.value);
      ok := true;
    }
  }

  method KeepOutside(index: Index, folders: seq<string>) returns (kept: Index)
    ensures kept == Outside(index, folders)
  {
    kept := [];
    ghost var outside := (r: Row) => r.mailbox !in folders;
    for i := 0 to |index|
      invariant kept == Filter(outside, index[..i])
    {
      assert index[..i + 1] == index[..i] + [index[i]];
      FilterConcat(outside, index[..i], [index[i]]);
      if index[i].mailbox !in folders {
        kept := kept + [index[i]];
      }
    }
    assert index[..|index|] == index;
  }

  /** An edit of a valid ACL by a parsed identifier and parsed rights is valid. */
  lemma EditedValid(before: ACL, after: ACL, k: Key, mode: Mode, rights: string, identifier: string, letters: string)
    requires ValidACL(before) && Edited(before, after, k, Changed(Lookup(before, k), mode, rights))
    requires ParseAdmin(identifier) == Some(k.id) && Normal(letters) == Some(rights)
    ensures ValidACL(after) && OnePerKey(after)
  {
    ParseAdminIsValid(identifier);
    NormalIsCanonical(letters);
    forall e | e in after
      ensures ValidEntry(e)
    {
      var i :| 0 <= i < |after| && after[i] == e;
      LookupOnly(after, i);
      if KeyOf(e) == k {
        ChangedCanonical(before, k, mode, rights);
      } else {
        LookupIsEntry(before, KeyOf(e));
      }
    }
  }

  lemma ChangedCanonical(before: ACL, k: Key, mode: Mode, rights: string)
    requires ValidACL(before) && Canonical(rights)
    ensures Changed(Lookup(before, k), mode, rights).Some? ==> Canonical(Changed(Lookup(before, k), mode, rights).value)
  {
    if Lookup(before, k).Some? {
      LookupIsEntry(before, k);
      UnionLetters(Lookup(before, k).value, rights, 'a');
      MinusCanonical(Lookup(before, k).value, rights);
    }
  }

  lemma {:induction false} CollectStops(files: Files, present: set<string>, folders: seq<string>, i: nat)
    requires i < |folders| && Resolve(files, present, folders[i]).None?
    ensures Collect(files, present, folders).None?
    decreases |folders|
  {
    if i < |folders| - 1 {
      CollectStops(files, present, folders[..|folders| - 1], i);
    }
  }

  lemma DueGrows(files: Files, present: set<string>, folders: seq<string>, next: string, f: string)
    ensures Due(files, present, folders + [next], f)
         == if f == next && Resolve(files, present, next).Some? then Resolve(files, present, next).value
            else Due(files, present, folders, f)
  {
  }

  /** The table with one more folder read; one that is gone adds nothing. */
  function Extend(cells: map<string, Cells>, files: Files, present: set<string>, next: string): map<string, Cells>
    requires Resolve(files, present, next).Some?
  {
    if next != "" && next !in present then cells else cells[next := CellsOf(Resolve(files, present, next).value)]
  }

  lemma DueAfter(cells: map<string, Cells>, files: Files, present: set<string>, folders: seq<string>, next: string,
                 f: string)
    requires Resolve(files, present, next).Some?
    requires CellsIn(cells, f) == CellsOf(Due(files, present, folders, f))
    requires CellsIn(cells, next) == CellsOf(Due(files, present, folders, next))
    ensures CellsIn(Extend(cells, files, present, next), f) == CellsOf(Due(files, present, folders + [next], f))
  {
    DueGrows(files, present, folders, next, f);
  }

  lemma HoldsDueGrows(cells: map<string, Cells>, files: Files, present: set<string>, folders: seq<string>, next: string)
    requires HoldsDue(cells, files, present, folders) && Resolve(files, present, next).Some?
    ensures HoldsDue(Extend(cells, files, present, next), files, present, folders + [next])
  {
    var grown := Extend(cells, files, present, next);
    forall f
      ensures CellsIn(grown, f) == CellsOf(Due(files, present, folders + [next], f))
    {
      DueAfter(cells, files, present, folders, next, f);
    }
  }

  predicate AllReadable(files: Files, present: set<string>, folders: seq<string>) {
    forall i :: 0 <= i < |folders| ==> Resolve(files, present, folders[i]).Some?
  }

  method ReadDue(files: Files, present: set<string>, folders: seq<string>) returns (cells: Option<map<string, Cells>>)
    ensures cells.Some? <==> AllReadable(files, present, folders)
    ensures cells.Some? ==> HoldsDue(cells.value, files, present, folders)
  {
    var out: map<string, Cells> := map[];
    for i := 0 to |folders|
      invariant HoldsDue(out, files, present, folders[..i])
      invariant AllReadable(files, present, folders[..i])
    {
      var f := folders[i];
      var acl := Resolve(files, present, f);
      assert folders[..i + 1] == folders[..i] + [f];
      if acl.None? {
        assert Resolve(files, present, folders[i]).None?;
        return None;
      }
      HoldsDueGrows(out, files, present, folders[..i], f);
      if f == "" || f in present {
        var rows := BuildCells(acl.value);
        out := out[f := rows];
      }
    }
    assert folders[..|folders|] == folders;
    cells := Some(out);
  }

  function NamesInScope(index: Index, folders: seq<string>, all: bool): set<string> {
    set r | r in index && InScope(folders, all, r.mailbox) :: r.mailbox
  }

  lemma EntriesSnoc(index: Index, r: Row, mailbox: string)
    ensures EntriesOf(index + [r], mailbox)
         == EntriesOf(index, mailbox) + if r.mailbox == mailbox then [r.entry] else []
  {
    assert (index + [r])[..|index|] == index;
  }

  lemma NamesSnoc(index: Index, r: Row, folders: seq<string>, all: bool)
    ensures NamesInScope(index + [r], folders, all)
         == NamesInScope(index, folders, all) + if InScope(folders, all, r.mailbox) then {r.mailbox} else {}
  {
    assert forall x :: x in index + [r] <==> x in index || x == r;
  }

  function Grown(cells: map<string, Cells>, r: Row): map<string, Cells> {
    cells[r.mailbox := CellsIn(cells, r.mailbox)[Named(KeyOf(r.entry)) := r.entry.rights]]
  }

  lemma IndexAfter(cells: map<string, Cells>, index: Index, r: Row, m: string)
    requires CellsIn(cells, m) == CellsOf(EntriesOf(index, m))
    ensures CellsIn(Grown(cells, r), m) == CellsOf(EntriesOf(index + [r], m))
    ensures r.mailbox != m ==> CellsIn(cells, m) == CellsOf(EntriesOf(index + [r], m))
  {
    EntriesSnoc(index, r, m);
    if m == r.mailbox {
      CellsSnoc(EntriesOf(index, m), r.entry);
    } else {
      assert EntriesOf(index, m) + [] == EntriesOf(index, m);
    }
  }

  lemma HoldsIndexGrows(cells: map<string, Cells>, index: Index, r: Row, folders: seq<string>, all: bool)
    requires HoldsIndex(cells, index, folders, all)
    ensures HoldsIndex(if InScope(folders, all, r.mailbox) then Grown(cells, r) else cells, index + [r], folders, all)
  {
    NamesSnoc(index, r, folders, all);
    var after := if InScope(folders, all, r.mailbox) then Grown(cells, r) else cells;
    forall m | InScope(folders, all, m)
      ensures CellsIn(after, m) == CellsOf(EntriesOf(index + [r], m))
    {
      IndexAfter(cells, index, r, m);
    }
  }

  method ReadIndex(index: Index, folders: seq<string>, all: bool) returns (cells: map<string, Cells>)
    ensures HoldsIndex(cells, index, folders, all)
  {
    cells := map[];
    for i := 0 to |index|
      invariant HoldsIndex(cells, index[..i], folders, all)
    {
      HoldsIndexGrows(cells, index[..i], index[i], folders, all);
      assert index[..i + 1] == index[..i] + [index[i]];
      if all || index[i].mailbox in folders {
        cells := Grown(cells, index[i]);
      }
    }
    assert index[..|index|] == index;
  }

  /** The drift between two tables of rows, folder by folder. */
  ghost predicate HoldsDrift(report: Report, due: map<string, Cells>, have: map<string, Cells>, names: set<string>) {
    forall m :: Lists(report, names, m, Diff(CellsIn(due, m), CellsIn(have, m)))
  }

  /** The report lists the name with this drift, or not at all when there is none. */
  predicate Lists(report: Report, names: set<string>, m: string, d: Drift) {
    if m in names && d != NO_DRIFT then m in report && report[m] == d else m !in report
  }

  method CompareAll(due: map<string, Cells>, have: map<string, Cells>) returns (report: Report)
    ensures HoldsDrift(report, due, have, due.Keys + have.Keys)
  {
    var todo := due.Keys + have.Keys;
    ghost var done := {};
    report := map[];
    while todo != {}
      invariant done + todo == due.Keys + have.Keys && done !! todo
      invariant HoldsDrift(report, due, have, done)
      decreases todo
    {
      var m :| m in todo;
      var d := Compare(CellsIn(due, m), CellsIn(have, m));
      if d != NO_DRIFT {
        report := report[m := d];
      }
      todo, done := todo - {m}, done + {m};
    }
  }

  /** The report, folder by folder in any order; files first, then the index, which is only read. */
  method DryRun(text: string, files: Files, present: set<string>, folders: seq<string>, all: bool)
    returns (report: Option<Report>)
    ensures report == Reported(text, files, present, folders, all)
  {
    var due := ReadDue(files, present, folders);
    if due.None? {
      return None;
    }
    var snapshot := Load(text);
    if snapshot.None? {
      return None;
    }
    var index := snapshot.value;
    var have := ReadIndex(index, folders, all);
    var drift := CompareAll(due.value, have);
    DriftIsReport(drift, due.value, have, index, files, present, folders, all);
    ReportIsUnique(drift, index, files, present, folders, Names(index, folders, all));
    report := Some(drift);
  }

  ghost predicate IsReport(report: Report, index: Index, files: Files, present: set<string>, folders: seq<string>,
                           names: set<string>) {
    forall m :: Lists(report, names, m, DriftAt(index, files, present, folders, m))
  }

  lemma ReportIsUnique(report: Report, index: Index, files: Files, present: set<string>, folders: seq<string>,
                       names: set<string>)
    requires IsReport(report, index, files, present, folders, names)
    ensures report == DriftTable(index, files, present, folders, names)
  {
    var right := DriftTable(index, files, present, folders, names);
    forall m
      ensures m in report <==> m in right
      ensures m in report ==> report[m] == right[m]
    {
      assert Lists(report, names, m, DriftAt(index, files, present, folders, m));
    }
  }

  lemma DriftBetween(due: map<string, Cells>, have: map<string, Cells>, index: Index, files: Files,
                     present: set<string>, folders: seq<string>, all: bool, m: string)
    requires HoldsDue(due, files, present, folders) && HoldsIndex(have, index, folders, all)
    ensures m in due || m in have ==> m in Names(index, folders, all)
    ensures m in Names(index, folders, all) ==>
              DriftAt(index, files, present, folders, m) == Diff(CellsIn(due, m), CellsIn(have, m))
    ensures m !in due && m !in have ==> Diff(CellsIn(due, m), CellsIn(have, m)) == NO_DRIFT
  {
    assert m in have <==> m in NamesInScope(index, folders, all);
    assert m in Names(index, folders, all) ==> InScope(folders, all, m);
    assert CellsIn(due, m) == CellsOf(Due(files, present, folders, m));
    CleanIffEqual(CellsIn(due, m), CellsIn(have, m));
  }

  lemma DriftIsReport(report: Report, due: map<string, Cells>, have: map<string, Cells>, index: Index, files: Files,
                      present: set<string>, folders: seq<string>, all: bool)
    requires HoldsDue(due, files, present, folders) && HoldsIndex(have, index, folders, all)
    requires HoldsDrift(report, due, have, due.Keys + have.Keys)
    ensures IsReport(report, index, files, present, folders, Names(index, folders, all))
  {
    forall m
      ensures Lists(report, Names(index, folders, all), m, DriftAt(index, files, present, folders, m))
    {
      assert Lists(report, due.Keys + have.Keys, m, Diff(CellsIn(due, m), CellsIn(have, m)));
      DriftBetween(due, have, index, files, present, folders, all, m);
    }
  }
}
