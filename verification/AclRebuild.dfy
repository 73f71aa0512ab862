/** The per-mailbox ACL files, and what rewriting the index from them leaves for a reader. */
module AclRebuild {
  import opened Basics
  import opened Acl
  import opened AclEdits
  import opened AclIndex
  import opened AclList
  import opened Order

  // ---------------------------------------------------------------- the files

  /** A mailbox's ACL file; a mailbox without one is absent from the map. */
  datatype File = Readable(acl: ACL) | Corrupt

  type Files = map<string, File>

  function Get(files: Files, folder: string): Option<ACL> {
    if folder !in files then Some([]) else if files[folder].Corrupt? then None else Some(files[folder].acl)
  }

  function RowsFor(folder: string, acl: ACL): Index {
    seq(|acl|, i requires 0 <= i < |acl| => Row(folder, acl[i]))
  }

  /** A folder that is gone contributes nothing; the root always exists. */
  function Resolve(files: Files, present: set<string>, folder: string): Option<ACL> {
    if folder != "" && folder !in present then Some([]) else Get(files, folder)
  }

  function Collect(files: Files, present: set<string>, folders: seq<string>): Option<Index>
    decreases |folders|
  {
    if folders == [] then Some([])
    else
      var front := Collect(files, present, folders[..|folders| - 1]);
      var last := Resolve(files, present, folders[|folders| - 1]);
      if front.None? || last.None? then None else Some(front.value + RowsFor(folders[|folders| - 1], last.value))
  }

  function Outside(index: Index, folders: seq<string>): Index {
    Filter((r: Row) => r.mailbox !in folders, index)
  }

  /** The ACL the rebuild reads for a mailbox; one not asked about counts as having none. */
  function Due(files: Files, present: set<string>, folders: seq<string>, mailbox: string): ACL {
    if mailbox in folders && Resolve(files, present, mailbox).Some? then Resolve(files, present, mailbox).value else []
  }

  /** The root, and a folder that is there, count with what their file says, and with nothing if they have none. */
  lemma DueIs(files: Files, present: set<string>, folders: seq<string>, f: string)
    requires f in folders
    ensures (f == "" || f in present) && f in files && files[f].Readable? ==>
              Due(files, present, folders, f) == files[f].acl
    ensures f !in files || (f != "" && f !in present) ==> Due(files, present, folders, f) == []
  {
  }

  /** Collecting fails exactly on a corrupt file of the root or of a folder that is there. */
  lemma {:induction false} CollectFailsIff(files: Files, present: set<string>, folders: seq<string>)
    ensures Collect(files, present, folders).None?
       <==> exists f :: f in folders && (f == "" || f in present) && f in files && files[f].Corrupt?
    decreases |folders|
  {
    if folders != [] {
      var front, last := folders[..|folders| - 1], folders[|folders| - 1];
      CollectFailsIff(files, present, front);
      assert folders == front + [last];
      assert last in folders;
    }
  }

  lemma {:induction false} RightsRowsFor(folder: string, acl: ACL, mailbox: string, k: Key)
    ensures RightsAt(RowsFor(folder, acl), mailbox, k) == if mailbox == folder then Lookup(acl, k) else None
    decreases |acl|
  {
    if acl != [] {
      var rows := RowsFor(folder, acl);
      assert rows[..|rows| - 1] == RowsFor(folder, acl[..|acl| - 1]);
      RightsRowsFor(folder, acl[..|acl| - 1], mailbox, k);
    }
  }

  /** The collected rows say of every folder asked about exactly what its file says. */
  lemma {:induction false} CollectedRights(files: Files, present: set<string>, folders: seq<string>,
                                           mailbox: string, k: Key)
    requires Collect(files, present, folders).Some?
    ensures RightsAt(Collect(files, present, folders).value, mailbox, k)
         == Lookup(Due(files, present, folders, mailbox), k)
    decreases |folders|
  {
    if folders != [] {
      var front, last := folders[..|folders| - 1], folders[|folders| - 1];
      CollectedRights(files, present, front, mailbox, k);
      var acl := Resolve(files, present, last).value;
      RightsRowsFor(last, acl, mailbox, k);
      RightsConcat(Collect(files, present, front).value, RowsFor(last, acl), mailbox, k);
      assert folders == front + [last];
    }
  }

  lemma {:induction false} CollectedRows(files: Files, present: set<string>, folders: seq<string>, r: Row)
    requires Collect(files, present, folders).Some?
    ensures r in Collect(files, present, folders).value <==> r.entry in Due(files, present, folders, r.mailbox)
    decreases |folders|
  {
    if folders != [] {
      var front, last := folders[..|folders| - 1], folders[|folders| - 1];
      CollectedRows(files, present, front, r);
      var acl := Resolve(files, present, last).value;
      var rows := RowsFor(last, acl);
      assert r in rows <==> r.mailbox == last && r.entry in acl by {
        if r.mailbox == last && r.entry in acl {
          var i :| 0 <= i < |acl| && acl[i] == r.entry;
          assert rows[i] == r;
        }
      }
      assert folders == front + [last];
    }
  }

  predicate InScope(folders: seq<string>, all: bool, mailbox: string) {
    all || mailbox in folders
  }

  /** Files as the parser yields them: valid entries, one per key. */
  predicate ValidFiles(files: Files) {
    forall f :: f in files && files[f].Readable? ==> ValidACL(files[f].acl) && OnePerKey(files[f].acl)
  }

  // ---------------------------------------------------------------- an index rewritten

  /** At this mailbox every row reads back as itself and as nothing else. */
  ghost predicate Faithful(rows: Index, mailbox: string) {
    forall r :: r in rows && ReadBack(r).Some? ==> RowsAt(ReadBack(r).value, mailbox) == RowsAt([r], mailbox)
  }

  lemma RowsAtOne(r: Row, mailbox: string)
    ensures RowsAt([r], mailbox) == if r.mailbox == mailbox then [r] else []
  {
    FilterCons((x: Row) => For(mailbox, x), r, []);
    assert [r] + [] == [r];
  }

  lemma FaithfulWhenClean(rows: Index, mailbox: string)
    requires AllClean(rows)
    ensures Faithful(rows, mailbox)
  {
    forall r | r in rows ensures ReadBack(r) == Some([r]) { ReadsBackIffClean(r); }
  }

  /** Rows of other mailboxes are faithful here when none of them reads back as a row of this one. */
  lemma {:induction false} FaithfulWhenQuiet(rows: Index, mailbox: string)
    requires ReadAll(rows).Some? && RowsAt(ReadAll(rows).value, mailbox) == []
    requires forall r :: r in rows ==> r.mailbox != mailbox
    ensures Faithful(rows, mailbox)
  {
    if rows != [] {
      var here := (r: Row) => For(mailbox, r);
      FilterConcat(here, ReadBack(rows[0]).value, ReadAll(rows[1..]).value);
      FaithfulWhenQuiet(rows[1..], mailbox);
      RowsAtOne(rows[0], mailbox);
      assert rows == [rows[0]] + rows[1..];
    }
  }

  lemma RewriteReadable(kept: Index, added: Index)
    requires AllClean(kept)
    ensures Load(Write(kept + added)).Some? <==> ReadAll(added).Some?
  {
    WriteReads(kept + added);
    ReadSorted(kept + added);
    ReadAllConcat(kept, added);
    CleanReadAll(kept);
  }

  /** A rewritten index holds the rows kept, and whatever the added rows read back as. */
  lemma RewriteContents(kept: Index, added: Index)
    requires AllClean(kept) && ReadAll(added).Some?
    ensures Load(Write(kept + added)).Some?
    ensures multiset(Load(Write(kept + added)).value) == multiset(kept) + multiset(ReadAll(added).value)
  {
    WriteReads(kept + added);
    ReadSorted(kept + added);
    ReadAllConcat(kept, added);
    CleanReadAll(kept);
  }

  lemma RewriteMember(kept: Index, added: Index, r: Row)
    requires AllClean(kept) && ReadAll(added).Some?
    ensures Load(Write(kept + added)).Some?
    ensures r in Load(Write(kept + added)).value <==> r in kept || r in ReadAll(added).value
  {
    RewriteContents(kept, added);
    var after := Load(Write(kept + added)).value;
    assert r in after <==> r in multiset(after);
    assert r in kept <==> r in multiset(kept);
    assert r in ReadAll(added).value <==> r in multiset(ReadAll(added).value);
  }

  lemma RewriteRowsAt(kept: Index, added: Index, mailbox: string)
    requires AllClean(kept) && ReadAll(added).Some?
    ensures Load(Write(kept + added)).Some?
    ensures multiset(RowsAt(Load(Write(kept + added)).value, mailbox))
         == multiset(RowsAt(kept, mailbox)) + multiset(RowsAt(ReadAll(added).value, mailbox))
  {
    RewriteContents(kept, added);
    FilterContents((r: Row) => For(mailbox, r), Load(Write(kept + added)).value, kept, ReadAll(added).value);
  }

  lemma RightsOfRowsAt(rows: Index, mailbox: string, k: Key)
    ensures RightsAt(RowsAt(rows, mailbox), mailbox, k) == RightsAt(rows, mailbox, k)
  {
    RightsFiltered(rows, (r: Row) => For(mailbox, r), mailbox, k);
  }

  /** Where the added rows are faithful, a reader finds the rights that were written. */
  lemma RewriteRights(kept: Index, added: Index, mailbox: string, k: Key)
    requires AllClean(kept) && ReadAll(added).Some? && Faithful(added, mailbox)
    ensures Load(Write(kept + added)).Some?
    ensures RightsAt(Load(Write(kept + added)).value, mailbox, k) == RightsAt(kept + added, mailbox, k)
  {
    var rows := kept + added;
    var sorted, here := SortBy(RowLeq, rows), (r: Row) => For(mailbox, r);
    WriteReads(rows);
    ReadSorted(rows);
    ReadAllConcat(kept, added);
    CleanReadAll(kept);
    SortedMembers(rows);
    FaithfulWhenClean(kept, mailbox);
    ReadAllSomeIff(sorted);
    ReadFiltered(here, sorted);
    RightsOfRowsAt(ReadAll(sorted).value, mailbox, k);
    RightsOfRowsAt(sorted, mailbox, k);
    RightsSorted(rows, mailbox, k);
  }

  // ---------------------------------------------------------------- the rebuild

  /** The rows of the present index a rebuild starts from: none when it replaces everything. */
  function Base(text: string, folders: seq<string>, all: bool): Index {
    if all || Load(text).None? then [] else Outside(Load(text).value, folders)
  }

  /**
   * The index file after a rebuild: merged for a named subset, replaced for all. None when an ACL
   * file, or the index a subset is merged into, cannot be read.
   */
  function Rebuilt(text: string, files: Files, present: set<string>, folders: seq<string>, all: bool): Option<string> {
    var found := Collect(files, present, folders);
    if found.None? || (!all && Load(text).None?) then None
    else Some(Write(Base(text, folders, all) + found.value))
  }

  /** A rebuild fails exactly on such a file, and a rebuild of named folders on an index it cannot read as well. */
  lemma RebuiltFailsIff(text: string, files: Files, present: set<string>, folders: seq<string>, all: bool)
    ensures Rebuilt(text, files, present, folders, all).None?
       <==> || (exists f :: f in folders && (f == "" || f in present) && f in files && files[f].Corrupt?)
            || (!all && Load(text).None?)
  {
    CollectFailsIff(files, present, folders);
  }

  /** Every folder the rebuild reads an ACL from has a name the index format carries. */
  ghost predicate Writable(files: Files, present: set<string>, folders: seq<string>) {
    forall f :: f in folders && Due(files, present, folders, f) != [] ==> CleanName(f)
  }

  lemma DueValid(files: Files, present: set<string>, folders: seq<string>, mailbox: string)
    requires ValidFiles(files)
    ensures ValidACL(Due(files, present, folders, mailbox)) && OnePerKey(Due(files, present, folders, mailbox))
  {
  }

  lemma FoundValid(files: Files, present: set<string>, folders: seq<string>, r: Row)
    requires ValidFiles(files) && Collect(files, present, folders).Some? && r in Collect(files, present, folders).value
    ensures ValidEntry(r.entry) && r.mailbox in folders && Due(files, present, folders, r.mailbox) != []
  {
    CollectedRows(files, present, folders, r);
    DueValid(files, present, folders, r.mailbox);
  }

  lemma FoundClean(files: Files, present: set<string>, folders: seq<string>)
    requires ValidFiles(files) && Collect(files, present, folders).Some? && Writable(files, present, folders)
    ensures AllClean(Collect(files, present, folders).value)
  {
    forall r | r in Collect(files, present, folders).value
      ensures CleanName(r.mailbox) && ValidEntry(r.entry)
    {
      FoundValid(files, present, folders, r);
    }
  }

  lemma BaseClean(text: string, folders: seq<string>, all: bool)
    ensures AllClean(Base(text, folders, all))
  {
    if !all && Load(text).Some? {
      LoadedClean(text);
      forall r | r in Base(text, folders, all)
        ensures r in Load(text).value
      {
        FilterMembers((x: Row) => x.mailbox !in folders, Load(text).value, r);
      }
    }
  }

  lemma RightsOfBase(text: string, folders: seq<string>, all: bool, mailbox: string, k: Key)
    requires all || Load(text).Some?
    ensures RightsAt(Base(text, folders, all), mailbox, k)
         == if InScope(folders, all, mailbox) then None else RightsAt(Load(text).value, mailbox, k)
  {
    if !all {
      RightsFiltered(Load(text).value, (r: Row) => r.mailbox !in folders, mailbox, k);
    }
  }

  /** Inside its scope the rebuilt index says what the files say; outside it says what it said. */
  lemma RebuiltRights(text: string, files: Files, present: set<string>, folders: seq<string>, all: bool,
                      mailbox: string, k: Key)
    requires Rebuilt(text, files, present, folders, all).Some?
    requires ReadAll(Collect(files, present, folders).value).Some?
    requires Faithful(Collect(files, present, folders).value, mailbox)
    ensures Load(Rebuilt(text, files, present, folders, all).value).Some?
    ensures RightsAt(Load(Rebuilt(text, files, present, folders, all).value).value, mailbox, k)
         == if InScope(folders, all, mailbox) then Lookup(Due(files, present, folders, mailbox), k)
            else RightsAt(Load(text).value, mailbox, k)
  {
    var found, kept := Collect(files, present, folders).value, Base(text, folders, all);
    BaseClean(text, folders, all);
    RewriteRights(kept, found, mailbox, k);
    RightsConcat(kept, found, mailbox, k);
    CollectedRights(files, present, folders, mailbox, k);
    RightsOfBase(text, folders, all, mailbox, k);
  }

  /** A reader of the rebuilt index can read it if and only if every row collected can be read back. */
  lemma RebuiltReadable(text: string, files: Files, present: set<string>, folders: seq<string>, all: bool)
    requires Rebuilt(text, files, present, folders, all).Some?
    ensures Load(Rebuilt(text, files, present, folders, all).value).Some?
       <==> ReadAll(Collect(files, present, folders).value).Some?
  {
    BaseClean(text, folders, all);
    RewriteReadable(Base(text, folders, all), Collect(files, present, folders).value);
  }

  /** With names the format carries, the rebuild is exactly what it is meant to be, everywhere. */
  lemma WritableReads(text: string, files: Files, present: set<string>, folders: seq<string>, all: bool)
    requires ValidFiles(files) && Writable(files, present, folders) && Rebuilt(text, files, present, folders, all).Some?
    ensures var found := Collect(files, present, folders).value;
            ReadAll(found) == Some(found) && AllClean(found) && forall m :: Faithful(found, m)
    ensures Load(Rebuilt(text, files, present, folders, all).value).Some?
  {
    var found := Collect(files, present, folders).value;
    FoundClean(files, present, folders);
    CleanReadAll(found);
    forall m ensures Faithful(found, m) { FaithfulWhenClean(found, m); }
    RebuiltReadable(text, files, present, folders, all);
  }

  lemma {:induction false} UncleanHasNoRights(index: Index, mailbox: string, k: Key)
    requires AllClean(index) && !CleanName(mailbox)
    ensures RightsAt(index, mailbox, k) == None
    decreases |index|
  {
    if index != [] {
      assert index[|index| - 1] in index;
      assert forall r :: r in index[..|index| - 1] ==> r in index;
      UncleanHasNoRights(index[..|index| - 1], mailbox, k);
    }
  }
}
