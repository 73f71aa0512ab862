/**
 * ACL writes racing rebuilds of the index. A write holds the folder's lock over its file and the
 * index. A rebuild lists its folders, looks which of them exist, reads each file that does under
 * its lock, one after another, and takes the index's own lock only to put down what it read. Any
 * number of rebuilds can be under way.
 */
module AclRace {
  import opened Basics
  import opened Acl
  import opened AclEdits
  import opened AclIndex
  import opened AclList
  import opened AclRebuild
  import opened AclAdmin
  import opened AclDrift

  /**
   * A rebuild under way: what it was asked for, which folders it has looked for and found, how many
   * it has read, the rows it has from them, and the folders whose files were written since it began.
   */
  datatype Rebuilding = Rebuilding(
    all: bool,
    folders: seq<string>,
    looked: set<string>,
    present: set<string>,
    done: nat,
    found: Index,
    changed: set<string>)

  /**
   * `writing` holds the folders whose file is written and whose index rows are not. `stale` is
   * history: the folders for which the last to put down rows was a rebuild that had others.
   */
  datatype World = World(
    exist: set<string>,
    files: Files,
    text: string,
    writing: map<string, ACL>,
    rebuilds: map<nat, Rebuilding>,
    stale: set<string>)

  datatype Step =
    | Create(folder: string)
    | WriteFile(folder: string, next: ACL)
    | UpdateIndex(folder: string)
    | Begin(id: nat, all: bool, folders: seq<string>)
    | Look(id: nat, folder: string)
    | ReadNext(id: nat)
    | Commit(id: nat)
    | Abandon(id: nat)

  predicate Exists(w: World, f: string) {
    f == "" || f in w.exist
  }

  /** What a folder's file grants; the files of the theorems below can be read. */
  function Filed(files: Files, f: string): ACL {
    if Get(files, f).Some? then Get(files, f).value else []
  }

  predicate Enabled(w: World, s: Step) {
    match s
    case Create(_) => true
    case WriteFile(f, next) => Exists(w, f) && f !in w.writing && ValidACL(next) && CleanName(f)
    case UpdateIndex(f) => f in w.writing
    case Begin(id, all, folders) =>
      id !in w.rebuilds && (all ==> "" in folders && forall f :: f in w.exist ==> f in folders)
    case Look(id, f) => id in w.rebuilds && f in w.rebuilds[id].folders && w.rebuilds[id].done == 0
    case ReadNext(id) =>
      id in w.rebuilds && CanRead(w, w.rebuilds[id])
    case Commit(id) => id in w.rebuilds && w.rebuilds[id].done == |w.rebuilds[id].folders|
    case Abandon(id) => id in w.rebuilds
  }

  /** Every folder was looked for, and the next one is missing or its lock is free. */
  predicate CanRead(w: World, b: Rebuilding) {
    && b.done < |b.folders| && (forall f :: f in b.folders ==> f in b.looked)
    && (b.folders[b.done] in b.present ==> b.folders[b.done] !in w.writing && Get(w.files, b.folders[b.done]).Some?)
  }

  /** A folder that was not there contributes nothing, whatever it holds by now. */
  function Taken(w: World, b: Rebuilding): Rebuilding
    requires b.done < |b.folders|
  {
    var f := b.folders[b.done];
    b.(done := b.done + 1,
       found := b.found + RowsFor(f, if f in b.present then Filed(w.files, f) else []))
  }

  /** The index a rebuild puts down. */
  function PutDown(text: string, b: Rebuilding): string {
    Write(Base(text, b.folders, b.all) + b.found)
  }

  predicate Covers(b: Rebuilding, f: string) {
    InScope(b.folders, b.all, f)
  }

  /** What the rebuild has for a folder is what its file grants now. */
  ghost predicate UpToDate(b: Rebuilding, files: Files, f: string) {
    forall k :: RightsAt(b.found, f, k) == Lookup(Filed(files, f), k)
  }

  function Boxes(rows: Index): set<string> {
    set r | r in rows :: r.mailbox
  }

  ghost function Outdated(b: Rebuilding, files: Files): set<string> {
    set f | f in files.Keys + Boxes(b.found) && Covers(b, f) && !UpToDate(b, files, f)
  }

  function Touch(rebuilds: map<nat, Rebuilding>, f: string): map<nat, Rebuilding> {
    map id | id in rebuilds :: rebuilds[id].(changed := rebuilds[id].changed + {f})
  }

  ghost function Next(w: World, s: Step): World {
    match s
    case Create(f) => w.(exist := w.exist + {f})
    case WriteFile(f, next) =>
      w.(files := w.files[f := Readable(Collapsed(next))], writing := w.writing[f := next],
         rebuilds := Touch(w.rebuilds, f))
    case UpdateIndex(f) =>
      if f in w.writing && Updated(w.text, f, w.writing[f]).Some? then
        w.(text := Updated(w.text, f, w.writing[f]).value, writing := w.writing - {f}, stale := w.stale - {f})
      else w
    case Begin(id, all, folders) => w.(rebuilds := w.rebuilds[id := Rebuilding(all, folders, {}, {}, 0, [], {})])
    case Look(id, f) =>
      if id in w.rebuilds then
        var b := w.rebuilds[id];
        w.(rebuilds := w.rebuilds[id := b.(looked := b.looked + {f},
                                           present := if Exists(w, f) then b.present + {f} else b.present - {f})])
      else w
    case ReadNext(id) =>
      if id in w.rebuilds && w.rebuilds[id].done < |w.rebuilds[id].folders| then
        w.(rebuilds := w.rebuilds[id := Taken(w, w.rebuilds[id])])
      else w
    case Commit(id) =>
      if id in w.rebuilds then
        var b := w.rebuilds[id];
        w.(text := PutDown(w.text, b), rebuilds := w.rebuilds - {id},
           stale := (set f | f in w.stale && !Covers(b, f)) + Outdated(b, w.files))
      else w
    case Abandon(id) => w.(rebuilds := w.rebuilds - {id})
  }

  // ---------------------------------------------------------------- what every step keeps

  /** The index grants at this folder what its file grants. */
  ghost predicate InSyncAt(text: string, files: Files, f: string) {
    Load(text).Some? && forall k :: RightsAt(Load(text).value, f, k) == Lookup(Filed(files, f), k)
  }

  /** Valid files that can be read, of folders that exist and have names the index carries. */
  ghost predicate Sound(w: World) {
    && ValidFiles(w.files) && Load(w.text).Some?
    && (forall f :: f in w.files ==> w.files[f].Readable? && CleanName(f) && Exists(w, f))
    && (forall f :: f in w.writing ==>
          f in w.files && ValidACL(w.writing[f]) && w.files[f] == Readable(Collapsed(w.writing[f])))
  }

  /** Every row a rebuild has is of a folder it was asked for. */
  ghost predicate Within(b: Rebuilding) {
    forall r :: r in b.found ==> r.mailbox in b.folders
  }

  /** What a rebuild has for folders not written since it began is what their files grant. */
  ghost predicate Current(w: World, b: Rebuilding) {
    && b.done <= |b.folders| && AllClean(b.found) && Within(b)
    && (forall f, k :: f !in b.changed ==>
          RightsAt(b.found, f, k) == if f in b.folders[..b.done] then Lookup(Filed(w.files, f), k) else None)
  }

  /** A folder it did not list, or looked for in vain, has no file but one written since. */
  ghost predicate Unlisted(w: World, b: Rebuilding) {
    && (forall f :: f in b.changed ==> f in w.files)
    && (b.all ==> forall f :: f in w.files ==> f in b.folders || f in b.changed)
    && (forall f :: f in b.looked && f in w.files ==> f in b.present || f in b.changed)
  }

  ghost predicate RebuildsInv(w: World) {
    forall id :: id in w.rebuilds ==> Current(w, w.rebuilds[id]) && Unlisted(w, w.rebuilds[id])
  }

  /** Folder by folder, index and file part exactly at the stale ones. */
  ghost predicate PartAtStale(w: World) {
    forall f :: f !in w.writing ==> (InSyncAt(w.text, w.files, f) <==> f !in w.stale)
  }

  ghost predicate Inv(w: World) {
    Sound(w) && RebuildsInv(w) && PartAtStale(w)
  }

  // ----- the index -----

  lemma SameSync(a: string, b: string, files: Files, m: string)
    requires Load(a).Some? && Load(b).Some?
    requires forall k :: RightsAt(Load(b).value, m, k) == RightsAt(Load(a).value, m, k)
    ensures InSyncAt(a, files, m) <==> InSyncAt(b, files, m)
  {
    if InSyncAt(b, files, m) {
      forall k ensures RightsAt(Load(a).value, m, k) == Lookup(Filed(files, m), k) {
        assert RightsAt(Load(b).value, m, k) == Lookup(Filed(files, m), k);
      }
    }
  }

  lemma UpdateSyncs(text: string, files: Files, f: string, next: ACL)
    requires Load(text).Some? && ValidACL(next) && CleanName(f) && Filed(files, f) == Collapsed(next)
    ensures InSyncAt(Updated(text, f, next).value, files, f)
  {
    UpdatedHere(text, f, next, Key(Anyone, false));
    forall k ensures RightsAt(Load(Updated(text, f, next).value).value, f, k) == Lookup(Collapsed(next), k) {
      UpdatedHere(text, f, next, k);
    }
  }

  lemma UpdateKeepsOthers(text: string, files: Files, f: string, next: ACL, m: string)
    requires Load(text).Some? && ValidACL(next) && CleanName(f) && m != f
    ensures InSyncAt(text, files, m) <==> InSyncAt(Updated(text, f, next).value, files, m)
  {
    UpdatedElsewhere(text, f, next, m);
    SameSync(text, Updated(text, f, next).value, files, m);
  }

  /** After a commit the index grants what the rebuild had, and elsewhere what it did. */
  lemma PutDownRights(text: string, b: Rebuilding, m: string, k: Key)
    requires Load(text).Some? && AllClean(b.found)
    ensures Load(PutDown(text, b)).Some?
    ensures RightsAt(Load(PutDown(text, b)).value, m, k)
         == if RightsAt(b.found, m, k).Some? || Covers(b, m) then RightsAt(b.found, m, k)
            else RightsAt(Load(text).value, m, k)
  {
    var kept := Base(text, b.folders, b.all);
    BaseClean(text, b.folders, b.all);
    CleanReadAll(b.found);
    FaithfulWhenClean(b.found, m);
    RewriteRights(kept, b.found, m, k);
    RightsConcat(kept, b.found, m, k);
    RightsOfBase(text, b.folders, b.all, m, k);
  }

  lemma {:induction false} NoRows(rows: Index, m: string, k: Key)
    requires forall r :: r in rows ==> r.mailbox != m
    ensures RightsAt(rows, m, k) == None
  {
    if rows != [] {
      assert rows[|rows| - 1] in rows && forall r :: r in rows[..|rows| - 1] ==> r in rows;
      NoRows(rows[..|rows| - 1], m, k);
    }
  }

  lemma CommitSyncs(text: string, files: Files, b: Rebuilding, m: string)
    requires Load(text).Some? && AllClean(b.found) && Within(b)
    ensures Load(PutDown(text, b)).Some?
    ensures InSyncAt(PutDown(text, b), files, m)
       <==> if Covers(b, m) then UpToDate(b, files, m) else InSyncAt(text, files, m)
  {
    var after := PutDown(text, b);
    PutDownRights(text, b, m, Key(Anyone, false));
    forall k
      ensures RightsAt(Load(after).value, m, k)
           == if Covers(b, m) then RightsAt(b.found, m, k) else RightsAt(Load(text).value, m, k)
    {
      PutDownRights(text, b, m, k);
      if !Covers(b, m) { NoRows(b.found, m, k); }
    }
    if Covers(b, m) {
      PutDownAgrees(after, files, b, m);
    } else {
      SameSync(text, after, files, m);
    }
  }

  lemma PutDownAgrees(text: string, files: Files, b: Rebuilding, m: string)
    requires Load(text).Some? && forall k :: RightsAt(Load(text).value, m, k) == RightsAt(b.found, m, k)
    ensures InSyncAt(text, files, m) <==> UpToDate(b, files, m)
  {
    if InSyncAt(text, files, m) {
      forall k ensures RightsAt(b.found, m, k) == Lookup(Filed(files, m), k) {
        assert RightsAt(Load(text).value, m, k) == Lookup(Filed(files, m), k);
      }
    }
  }

  lemma OutdatedIff(b: Rebuilding, files: Files, m: string)
    ensures m in Outdated(b, files) <==> Covers(b, m) && !UpToDate(b, files, m)
  {
    if m !in files.Keys + Boxes(b.found) {
      forall k ensures RightsAt(b.found, m, k) == Lookup(Filed(files, m), k) {
        forall r | r in b.found ensures r.mailbox != m { assert r.mailbox in Boxes(b.found); }
        NoRows(b.found, m, k);
      }
    }
  }

  lemma CommitStales(w: World, id: nat, m: string)
    requires id in w.rebuilds
    ensures m in Next(w, Commit(id)).stale
       <==> if Covers(w.rebuilds[id], m) then !UpToDate(w.rebuilds[id], w.files, m) else m in w.stale
  {
    OutdatedIff(w.rebuilds[id], w.files, m);
  }

  lemma CommitKeepsInv(w: World, id: nat)
    requires Inv(w) && Enabled(w, Commit(id))
    ensures Inv(Next(w, Commit(id)))
  {
    CommitKeepsSound(w, id);
    CommitKeepsParting(w, id);
    SameRebuilds(w, Next(w, Commit(id)));
  }

  lemma CommitReads(text: string, b: Rebuilding)
    requires Load(text).Some? && AllClean(b.found) && Within(b)
    ensures Load(PutDown(text, b)).Some?
  {
    CommitSyncs(text, map[], b, "");
  }

  lemma CommitKeepsSound(w: World, id: nat)
    requires Sound(w) && id in w.rebuilds && Current(w, w.rebuilds[id])
    ensures Sound(Next(w, Commit(id)))
  {
    CommitReads(w.text, w.rebuilds[id]);
    SoundStill(w, Next(w, Commit(id)));
  }

  /** Soundness is about the files, the writers and whether the index can be read. */
  lemma SoundStill(w: World, w': World)
    requires Sound(w) && Load(w'.text).Some?
    requires w'.files == w.files && w'.writing == w.writing && w'.exist == w.exist
    ensures Sound(w')
  {
  }

  lemma CommitPartsAt(w: World, id: nat, m: string)
    requires PartAtStale(w) && Load(w.text).Some? && id in w.rebuilds && Current(w, w.rebuilds[id])
    requires m !in w.writing
    ensures InSyncAt(PutDown(w.text, w.rebuilds[id]), w.files, m) <==> m !in Next(w, Commit(id)).stale
  {
    CommitSyncs(w.text, w.files, w.rebuilds[id], m);
    CommitStales(w, id, m);
  }

  lemma CommitKeepsParting(w: World, id: nat)
    requires PartAtStale(w) && Load(w.text).Some? && id in w.rebuilds && Current(w, w.rebuilds[id])
    ensures PartAtStale(Next(w, Commit(id)))
  {
    forall m | m !in w.writing
      ensures InSyncAt(PutDown(w.text, w.rebuilds[id]), w.files, m) <==> m !in Next(w, Commit(id)).stale
    {
      CommitPartsAt(w, id, m);
    }
  }

  /** The rebuilds left, with the files as they were. */
  lemma SameRebuilds(w: World, w': World)
    requires RebuildsInv(w) && w'.files == w.files
    requires forall id :: id in w'.rebuilds ==> id in w.rebuilds && w'.rebuilds[id] == w.rebuilds[id]
    ensures RebuildsInv(w')
  {
    forall id | id in w'.rebuilds
      ensures Current(w', w'.rebuilds[id]) && Unlisted(w', w'.rebuilds[id])
    {
      assert Current(w, w.rebuilds[id]) && Unlisted(w, w.rebuilds[id]);
    }
  }

  lemma UpdateKeepsInv(w: World, f: string)
    requires Inv(w) && f in w.writing
    ensures Inv(Next(w, UpdateIndex(f)))
  {
    var w', next := Next(w, UpdateIndex(f)), w.writing[f];
    UpdateSyncs(w.text, w.files, f, next);
    forall m | m !in w'.writing
      ensures InSyncAt(w'.text, w'.files, m) <==> m !in w'.stale
    {
      if m != f {
        UpdateKeepsOthers(w.text, w.files, f, next, m);
        assert InSyncAt(w.text, w.files, m) <==> m !in w.stale;
      }
    }
    SameRebuilds(w, w');
  }

  // ----- the rebuilds -----

  lemma WriteKeepsRebuild(w: World, b: Rebuilding, f: string, next: ACL)
    requires Current(w, b) && Unlisted(w, b)
    ensures var w', b' := Next(w, WriteFile(f, next)), b.(changed := b.changed + {f});
            Current(w', b') && Unlisted(w', b')
  {
    var w', b' := Next(w, WriteFile(f, next)), b.(changed := b.changed + {f});
    forall m, k | m !in b'.changed
      ensures RightsAt(b.found, m, k) == if m in b.folders[..b.done] then Lookup(Filed(w'.files, m), k) else None
    {
      assert Filed(w'.files, m) == Filed(w.files, m);
    }
  }

  lemma WriteKeepsInv(w: World, f: string, next: ACL)
    requires Inv(w) && Enabled(w, WriteFile(f, next))
    ensures Inv(Next(w, WriteFile(f, next)))
  {
    var w' := Next(w, WriteFile(f, next));
    CollapsedValid(next);
    forall m | m !in w'.writing
      ensures InSyncAt(w'.text, w'.files, m) <==> m !in w'.stale
    {
      assert InSyncAt(w.text, w.files, m) <==> m !in w.stale;
      assert Filed(w'.files, m) == Filed(w.files, m);
    }
    forall id | id in w'.rebuilds
      ensures Current(w', w'.rebuilds[id]) && Unlisted(w', w'.rebuilds[id])
    {
      WriteKeepsRebuild(w, w.rebuilds[id], f, next);
    }
  }

  lemma TakeKeepsCurrent(w: World, b: Rebuilding)
    requires Sound(w) && Current(w, b) && Unlisted(w, b) && CanRead(w, b)
    ensures Current(w, Taken(w, b)) && Unlisted(w, Taken(w, b))
  {
    var f, c := b.folders[b.done], Taken(w, b);
    var acl := if f in b.present then Filed(w.files, f) else [];
    var rows := RowsFor(f, acl);
    assert b.folders[..c.done] == b.folders[..b.done] + [f];
    forall r | r in c.found
      ensures CleanName(r.mailbox) && ValidEntry(r.entry) && r.mailbox in b.folders
    {
      RowsForMembers(f, acl, r);
    }
    forall m, k | m !in c.changed
      ensures RightsAt(c.found, m, k) == if m in c.folders[..c.done] then Lookup(Filed(w.files, m), k) else None
    {
      RightsConcat(b.found, rows, m, k);
      RightsRowsFor(f, acl, m, k);
    }
  }

  lemma OthersKept(w: World, w': World, id: nat, b: Rebuilding)
    requires RebuildsInv(w) && w'.files == w.files && w'.rebuilds == w.rebuilds[id := b]
    requires Current(w, b) && Unlisted(w, b)
    ensures RebuildsInv(w')
  {
    forall i | i in w'.rebuilds
      ensures Current(w', w'.rebuilds[i]) && Unlisted(w', w'.rebuilds[i])
    {
      if i != id { assert Current(w, w.rebuilds[i]) && Unlisted(w, w.rebuilds[i]); }
    }
  }

  lemma BeginKeepsInv(w: World, id: nat, all: bool, folders: seq<string>)
    requires Inv(w) && Enabled(w, Begin(id, all, folders))
    ensures Inv(Next(w, Begin(id, all, folders)))
  {
    var b := Rebuilding(all, folders, {}, {}, 0, [], {});
    assert folders[..0] == [];
    OthersKept(w, Next(w, Begin(id, all, folders)), id, b);
  }

  lemma LookKeepsInv(w: World, id: nat, f: string)
    requires Inv(w) && Enabled(w, Look(id, f))
    ensures Inv(Next(w, Look(id, f)))
  {
    var w' := Next(w, Look(id, f));
    assert Current(w, w.rebuilds[id]) && Unlisted(w, w.rebuilds[id]);
    OthersKept(w, w', id, w'.rebuilds[id]);
  }

  lemma ReadKeepsInv(w: World, id: nat)
    requires Inv(w) && Enabled(w, ReadNext(id))
    ensures Inv(Next(w, ReadNext(id)))
  {
    TakeKeepsCurrent(w, w.rebuilds[id]);
    OthersKept(w, Next(w, ReadNext(id)), id, Taken(w, w.rebuilds[id]));
  }

  lemma StepKeepsInv(w: World, s: Step)
    requires Inv(w) && Enabled(w, s)
    ensures Inv(Next(w, s))
  {
    match s
    case Create(f) => SameRebuilds(w, Next(w, s));
    case WriteFile(f, next) => WriteKeepsInv(w, f, next);
    case UpdateIndex(f) => UpdateKeepsInv(w, f);
    case Begin(id, all, folders) => BeginKeepsInv(w, id, all, folders);
    case Look(id, f) => LookKeepsInv(w, id, f);
    case ReadNext(id) => ReadKeepsInv(w, id);
    case Commit(id) => CommitKeepsInv(w, id);
    case Abandon(id) => SameRebuilds(w, Next(w, s));
  }

  /** A rebuild can be given up at any time, and nothing but itself is gone then. */
  lemma AbandonLosesNothing(w: World, id: nat)
    requires id in w.rebuilds
    ensures Enabled(w, Abandon(id))
    ensures var w' := Next(w, Abandon(id));
            && w'.text == w.text && w'.files == w.files && w'.writing == w.writing && w'.stale == w.stale
            && w'.rebuilds.Keys == w.rebuilds.Keys - {id}
  {
  }

  /** A rebuild goes on unless the next folder it found there is being written, or it has not looked for all. */
  lemma RebuildProceedsIff(w: World, id: nat)
    requires Inv(w) && id in w.rebuilds && w.rebuilds[id].done < |w.rebuilds[id].folders|
    ensures var b := w.rebuilds[id];
            var next := b.folders[b.done];
            Enabled(w, ReadNext(id)) ==
            ((forall f :: f in b.folders ==> f in b.looked) && (next !in b.present || next !in w.writing))
  {
    var b := w.rebuilds[id];
    assert Get(w.files, b.folders[b.done]).Some?;
  }

  /**
   * A folder goes stale only by the commit of a rebuild that covers it and that began before its file
   * was last written: read too early, looked for before it was there, or not yet there to be listed.
   */
  lemma StaleOnlyIfChanged(w: World, s: Step, f: string)
    requires Inv(w) && Enabled(w, s) && f !in w.stale && f in Next(w, s).stale
    ensures s.Commit? && Covers(w.rebuilds[s.id], f) && f in w.rebuilds[s.id].changed
  {
    var b := w.rebuilds[s.id];
    OutdatedIff(b, w.files, f);
    assert Current(w, b) && Unlisted(w, b) && b.folders[..b.done] == b.folders;
  }

  // ---------------------------------------------------------------- every interleaving

  ghost predicate Possible(w: World, steps: seq<Step>)
    decreases steps
  {
    steps == [] || (Enabled(w, steps[0]) && Possible(Next(w, steps[0]), steps[1..]))
  }

  ghost function Run(w: World, steps: seq<Step>): World
    decreases steps
  {
    if steps == [] then w else Run(Next(w, steps[0]), steps[1..])
  }

  /**
   * After any interleaving of writes and rebuilds, at every folder no write is in the middle of:
   * index and file grant the same, if and only if the last thing to put down the folder's rows was
   * not a rebuild that had for it other rights than its file gave by then.
   */
  lemma {:induction false} EveryRace(w: World, steps: seq<Step>, f: string)
    requires Inv(w) && Possible(w, steps)
    ensures Inv(Run(w, steps))
    ensures f !in Run(w, steps).writing ==>
              (InSyncAt(Run(w, steps).text, Run(w, steps).files, f) <==> f !in Run(w, steps).stale)
    decreases steps
  {
    if steps != [] {
      StepKeepsInv(w, steps[0]);
      EveryRace(Next(w, steps[0]), steps[1..], f);
    }
  }

  ghost predicate Grants(b: Rebuilding, f: string, acl: ACL) {
    forall k :: RightsAt(b.found, f, k) == Lookup(acl, k)
  }

  /**
   * A write that falls between a rebuild's last read and its commit is kept in the index, if and only
   * if it grants what the rebuild has, for every folder the rebuild covers.
   */
  lemma LateWriteKeptIff(w: World, id: nat, f: string, next: ACL)
    requires Inv(w) && Enabled(w, WriteFile(f, next)) && Enabled(w, Commit(id)) && Covers(w.rebuilds[id], f)
    ensures var steps := [WriteFile(f, next), UpdateIndex(f), Commit(id)];
            && Possible(w, steps) && f !in Run(w, steps).writing
            && (InSyncAt(Run(w, steps).text, Run(w, steps).files, f) <==> Grants(w.rebuilds[id], f, Collapsed(next)))
  {
    var steps := [WriteFile(f, next), UpdateIndex(f), Commit(id)];
    var w1 := Next(w, WriteFile(f, next));
    var w2 := Next(w1, UpdateIndex(f));
    RunThree(w, WriteFile(f, next), UpdateIndex(f), Commit(id));
    EveryRace(w, steps, f);
    CommitStales(w2, id, f);
    assert w2.rebuilds[id].found == w.rebuilds[id].found && Filed(w2.files, f) == Collapsed(next);
    assert UpToDate(w2.rebuilds[id], w2.files, f) <==> Grants(w.rebuilds[id], f, Collapsed(next));
  }

  /**
   * So a folder created after the rebuild of everything listed the namespace, or after a rebuild of it
   * by name had looked for it, loses whatever it is granted before the commit.
   */
  lemma NewFolderDropped(w: World, id: nat, f: string, next: ACL)
    requires Inv(w) && !Exists(w, f) && CleanName(f) && ValidACL(next) && Enabled(w, Commit(id))
    requires Covers(w.rebuilds[id], f)
    ensures var steps := [Create(f), WriteFile(f, next), UpdateIndex(f), Commit(id)];
            && Possible(w, steps) && f !in Run(w, steps).writing
            && (InSyncAt(Run(w, steps).text, Run(w, steps).files, f) <==> next == [])
  {
    var w1 := Next(w, Create(f));
    var b := w.rebuilds[id];
    StepKeepsInv(w, Create(f));
    LateWriteKeptIff(w1, id, f, next);
    RunCons(w, Create(f), [WriteFile(f, next), UpdateIndex(f), Commit(id)]);
    assert Current(w, b) && Unlisted(w, b) && f !in w.files;
    UnreadGrantsNothing(w, b, f, next);
  }

  lemma FolderRead(w: World, id: nat, f: string)
    requires Inv(w) && id !in w.rebuilds && Exists(w, f) && f !in w.writing
    ensures var steps := [Begin(id, false, [f]), Look(id, f), ReadNext(id)];
            && Possible(w, steps) && Run(w, steps).files == w.files && Run(w, steps).writing == w.writing
            && Run(w, steps).exist == w.exist && Enabled(Run(w, steps), Commit(id))
            && Run(w, steps).rebuilds[id].folders == [f]
            && Run(w, steps).rebuilds[id].found == RowsFor(f, Filed(w.files, f))
  {
    var w1 := Next(w, Begin(id, false, [f]));
    var w2 := Next(w1, Look(id, f));
    assert CanRead(w2, w2.rebuilds[id]);
    assert [] + RowsFor(f, Filed(w.files, f)) == RowsFor(f, Filed(w.files, f));
    RunThree(w, Begin(id, false, [f]), Look(id, f), ReadNext(id));
  }

  /**
   * A rebuild that reads a folder before a write and commits after it keeps the write, if and only if
   * it granted nothing new.
   */
  lemma SlowRebuildOverwrites(w: World, id: nat, f: string, next: ACL)
    requires Inv(w) && id !in w.rebuilds && Enabled(w, WriteFile(f, next))
    ensures var before := [Begin(id, false, [f]), Look(id, f), ReadNext(id)];
            var after := [WriteFile(f, next), UpdateIndex(f), Commit(id)];
            var end := Run(Run(w, before), after);
            && Possible(w, before) && Possible(Run(w, before), after)
            && (InSyncAt(end.text, end.files, f)
                <==> forall k :: Lookup(Filed(w.files, f), k) == Lookup(Collapsed(next), k))
  {
    var before := [Begin(id, false, [f]), Look(id, f), ReadNext(id)];
    FolderRead(w, id, f);
    EveryRace(w, before, f);
    var w3 := Run(w, before);
    forall k ensures RightsAt(w3.rebuilds[id].found, f, k) == Lookup(Filed(w.files, f), k) {
      RightsRowsFor(f, Filed(w.files, f), f, k);
    }
    LateWriteKeptIff(w3, id, f, next);
    SameGrants(w3.rebuilds[id], f, Filed(w.files, f), Collapsed(next));
  }

  lemma SameGrants(b: Rebuilding, f: string, before: ACL, after: ACL)
    requires Grants(b, f, before)
    ensures Grants(b, f, after) <==> forall k :: Lookup(before, k) == Lookup(after, k)
  {
    forall k ensures RightsAt(b.found, f, k) == Lookup(before, k) {}
    if Grants(b, f, after) {
      forall k ensures Lookup(before, k) == Lookup(after, k) {
        assert RightsAt(b.found, f, k) == Lookup(before, k) && RightsAt(b.found, f, k) == Lookup(after, k);
      }
    } else {
      var k :| RightsAt(b.found, f, k) != Lookup(after, k);
      assert RightsAt(b.found, f, k) == Lookup(before, k);
    }
  }

  lemma UnreadGrantsNothing(w: World, b: Rebuilding, f: string, next: ACL)
    requires Current(w, b) && f !in w.files && f !in b.changed
    ensures Grants(b, f, Collapsed(next)) <==> next == []
  {
    CollapsedEmptyIff(next);
    if next != [] {
      var k := KeyOf(next[0]);
      DueEntryFound(next, 0);
      CollapseKeepsLookup(next, k);
      assert RightsAt(b.found, f, k) == None;
    }
  }

  lemma RunThree(w: World, a: Step, b: Step, c: Step)
    requires Enabled(w, a) && Enabled(Next(w, a), b) && Enabled(Next(Next(w, a), b), c)
    ensures Possible(w, [a, b, c])
    ensures Run(w, [a, b, c]) == Next(Next(Next(w, a), b), c)
  {
    RunCons(Next(Next(w, a), b), c, []);
    RunCons(Next(w, a), b, [c]);
    RunCons(w, a, [b, c]);
  }

  lemma RunCons(w: World, s: Step, rest: seq<Step>)
    requires Enabled(w, s) && Possible(Next(w, s), rest)
    ensures Possible(w, [s] + rest) && Run(w, [s] + rest) == Run(Next(w, s), rest)
  {
    assert ([s] + rest)[1..] == rest;
  }
}
