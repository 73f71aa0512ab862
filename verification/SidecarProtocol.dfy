/**
 * A sidecar rebuild running against live mail: deliveries store a message and then record its
 * placement under the account's thread lock, IMAP sessions move and expunge without it.
 */
module SidecarProtocol {
  type Guid = string
  type Folder = string

  /** An index row: this message is listed in this folder. */
  datatype Row = Row(guid: Guid, folder: Folder)

  /** Who holds the account's thread lock: nobody, or a rebuild part-way through its walk. */
  datatype Lock =
    | Free
    | Walking(pending: seq<Folder>, current: Folder, rows: set<Guid>, collected: set<Guid>)

  /** `body` is where a message's file lies, `listed` what the folder indexes say; a move lets the two part. */
  datatype World = World(
    folders: set<Folder>,
    body: map<Guid, Folder>,
    listed: set<Row>,
    delivered: set<Guid>,
    recorded: set<Guid>,
    unreadable: set<Guid>,
    live: set<Guid>,
    lock: Lock)

  /** A move is three of these: the file is relocated, listed in its new folder, and taken off the old one's list. */
  datatype Step =
    | Create(folder: Folder)
    | Store(guid: Guid, folder: Folder)
    | Expunge(guid: Guid)
    | Relocate(guid: Guid, folder: Folder)
    | Enlist(guid: Guid)
    | Delist(guid: Guid, folder: Folder)
    | Record(guid: Guid)
    | Begin(order: seq<Folder>)
    | OpenFolder
    | ReadRow(guid: Guid)
    | Install
    | Abandon

  /** When a step can happen. `locking` is false for the run the tool warns about: no lock service. */
  predicate Enabled(w: World, step: Step, locking: bool) {
    match step
    case Create(_) => true
    case Store(g, f) => g !in w.delivered && f in w.folders
    case Expunge(g) => g in w.body
    case Relocate(g, f) => g in w.body && f in w.folders
    case Enlist(g) => g in w.body
    case Delist(g, f) => Row(g, f) in w.listed
    case Record(g) => g in w.delivered && (locking ==> w.lock.Free?)
    case Begin(order) => w.lock.Free? && forall f :: f in w.folders ==> f in order
    case OpenFolder => w.lock.Walking? && w.lock.rows == {} && w.lock.pending != []
    case ReadRow(g) => w.lock.Walking? && g in w.lock.rows
    case Install => w.lock.Walking? && w.lock.rows == {} && w.lock.pending == []
    case Abandon => w.lock.Walking?
  }

  function RowsOf(w: World, folder: Folder): set<Guid> {
    set r | r in w.listed && r.folder == folder :: r.guid
  }

  /** A header read succeeds only for a message whose file is still where its index row said. */
  predicate CanRead(w: World, g: Guid, folder: Folder) {
    g !in w.unreadable && g in w.body && w.body[g] == folder
  }

  function Next(w: World, step: Step): World {
    match step
    case Create(f) => w.(folders := w.folders + {f})
    case Store(g, f) =>
      w.(body := w.body[g := f], listed := w.listed + {Row(g, f)}, delivered := w.delivered + {g})
    case Expunge(g) =>
      if g in w.body then w.(body := w.body - {g}, listed := w.listed - {Row(g, w.body[g])}) else w
    case Relocate(g, f) => w.(body := w.body[g := f])
    case Enlist(g) => if g in w.body then w.(listed := w.listed + {Row(g, w.body[g])}) else w
    case Delist(g, f) => w.(listed := w.listed - {Row(g, f)})
    case Record(g) => w.(live := w.live + {g}, recorded := w.recorded + {g})
    case Begin(order) => w.(lock := Walking(order, "", {}, {}))
    case OpenFolder =>
      if w.lock.Walking? && w.lock.pending != [] then
        var f := w.lock.pending[0];
        w.(lock := Walking(w.lock.pending[1..], f, RowsOf(w, f), w.lock.collected))
      else w
    case ReadRow(g) =>
      if w.lock.Walking? then
        w.(lock := w.lock.(
             rows := w.lock.rows - {g},
             collected := w.lock.collected + if CanRead(w, g, w.lock.current) then {g} else {}))
      else w
    case Install =>
      // Nothing collected means no working file: the rename fails and the old sidecar stays.
      if w.lock.Walking? && w.lock.collected != {} then w.(live := w.lock.collected, lock := Free)
      else w.(lock := Free)
    case Abandon => w.(lock := Free)
  }

  /** The messages the sidecar owes an entry, those in the middle of a move included. */
  predicate Owed(w: World, g: Guid) {
    g in w.recorded && g in w.body && g !in w.unreadable
  }

  ghost predicate Covered(w: World) {
    forall g :: Owed(w, g) ==> g in w.live
  }

  /** The walk has this message, or comes to the folder its file lies in, or stands at its row there. */
  predicate Reachable(w: World, g: Guid)
    requires w.lock.Walking? && g in w.body
  {
    || g in w.lock.collected
    || w.body[g] in w.lock.pending
    || (g in w.lock.rows && w.body[g] == w.lock.current)
  }

  ghost predicate Inv(w: World) {
    && w.recorded <= w.delivered && w.body.Keys <= w.delivered
    && (forall g :: g in w.body ==> w.body[g] in w.folders)
    && Covered(w)
    && (w.lock.Walking? ==> forall g :: Owed(w, g) ==> Reachable(w, g))
  }

  /** The file of an owed, uncollected message goes where the walk will not look again. */
  predicate Strays(w: World, step: Step) {
    && step.Relocate? && w.lock.Walking? && Owed(w, step.guid)
    && step.guid !in w.lock.collected
    && step.folder !in w.lock.pending
    && !(step.guid in w.lock.rows && step.folder == w.lock.current)
  }

  /**
   * The walk opens, for the last time, the folder this owed, uncollected message lies in, and it is
   * not listed there.
   */
  predicate Overtakes(w: World, step: Step, g: Guid) {
    && step.OpenFolder? && w.lock.Walking? && w.lock.pending != [] && Owed(w, g)
    && g !in w.lock.collected
    && w.body[g] == w.lock.pending[0] && w.body[g] !in w.lock.pending[1..]
    && Row(g, w.body[g]) !in w.listed
  }

  /** The two ways the walk and a move miss each other. */
  ghost predicate Misses(w: World, step: Step) {
    Strays(w, step) || exists g :: Overtakes(w, step, g)
  }

  lemma OpenedRow(w: World, g: Guid, f: Folder)
    ensures g in RowsOf(w, f) <==> Row(g, f) in w.listed
  {
    if Row(g, f) in w.listed { assert Row(g, f).guid == g; }
  }

  lemma OpenKeepsReachable(w: World, g: Guid)
    requires Enabled(w, OpenFolder, true) && Owed(w, g) && Reachable(w, g)
    ensures Reachable(Next(w, OpenFolder), g) <==> !Overtakes(w, OpenFolder, g)
  {
    assert w.lock.pending == [w.lock.pending[0]] + w.lock.pending[1..];
    OpenedRow(w, g, w.lock.pending[0]);
  }

  lemma StepKeepsInv(w: World, step: Step)
    requires Inv(w) && Enabled(w, step, true) && !Misses(w, step)
    ensures Inv(Next(w, step))
  {
    var w' := Next(w, step);
    if step.OpenFolder? {
      forall g | Owed(w', g) ensures Reachable(w', g) {
        assert Owed(w, g) && Reachable(w, g);
        OpenKeepsReachable(w, g);
      }
    } else if w.lock.Walking? {
      assert forall g :: Owed(w', g) ==> Owed(w, g) && Reachable(w, g);
    }
  }

  /** Of all steps exactly these break the walk's promise. */
  lemma StepKeepsInvIff(w: World, step: Step)
    requires Inv(w) && Enabled(w, step, true)
    ensures Inv(Next(w, step)) <==> !Misses(w, step)
  {
    var w' := Next(w, step);
    if !Misses(w, step) {
      StepKeepsInv(w, step);
    } else if Strays(w, step) {
      assert Owed(w', step.guid) && !Reachable(w', step.guid);
    } else {
      var g :| Overtakes(w, step, g);
      OpenKeepsReachable(w, g);
      assert Owed(w', g) && !Reachable(w', g);
    }
  }

  function Run(w: World, steps: seq<Step>): World
    decreases steps
  {
    if steps == [] then w else Run(Next(w, steps[0]), steps[1..])
  }

  predicate Possible(w: World, steps: seq<Step>, locking: bool)
    decreases steps
  {
    steps == [] || (Enabled(w, steps[0], locking) && Possible(Next(w, steps[0]), steps[1..], locking))
  }

  ghost predicate Settled(w: World, steps: seq<Step>)
    decreases steps
  {
    steps == [] || (!Misses(w, steps[0]) && Settled(Next(w, steps[0]), steps[1..]))
  }

  /**
   * In every interleaving in which walk and moves do not miss each other, the live sidecar covers
   * every message whose placement was recorded and whose file is stored and readable.
   */
  lemma {:induction false} NoLostPlacement(w: World, steps: seq<Step>)
    requires Inv(w) && Possible(w, steps, true) && Settled(w, steps)
    ensures Inv(Run(w, steps)) && Covered(Run(w, steps))
    decreases steps
  {
    if steps != [] {
      StepKeepsInv(w, steps[0]);
      NoLostPlacement(Next(w, steps[0]), steps[1..]);
    }
  }

  // ----- what a miss costs -----

  // ----- runs in which nothing is moved -----

  /** Every message is listed where its file lies. */
  ghost predicate AllListed(w: World) {
    forall g :: g in w.body ==> Row(g, w.body[g]) in w.listed
  }

  predicate MovesNothing(steps: seq<Step>) {
    forall s :: s in steps ==> !s.Relocate? && !s.Delist?
  }

  lemma StepKeepsListed(w: World, step: Step)
    requires AllListed(w) && !step.Relocate? && !step.Delist?
    ensures AllListed(Next(w, step)) && !Misses(w, step)
  {
  }

  /** With the lock, and nothing moved, no interleaving of deliveries, expunges and rebuilds costs an entry. */
  lemma {:induction false} WithoutMovesCovered(w: World, steps: seq<Step>)
    requires Inv(w) && AllListed(w) && Possible(w, steps, true) && MovesNothing(steps)
    ensures Inv(Run(w, steps)) && AllListed(Run(w, steps)) && Covered(Run(w, steps))
    decreases steps
  {
    if steps != [] {
      assert steps[0] in steps && forall s :: s in steps[1..] ==> s in steps;
      StepKeepsListed(w, steps[0]);
      StepKeepsInv(w, steps[0]);
      WithoutMovesCovered(Next(w, steps[0]), steps[1..]);
    }
  }

  // ----- a walk by itself -----

  /** The messages a walk in this order can read: listed in a folder of it, and their files lie there. */
  ghost predicate Legible(w: World, order: seq<Folder>, g: Guid) {
    g in w.body && g !in w.unreadable && w.body[g] in order && Row(g, w.body[g]) in w.listed
  }

  ghost predicate OnTheWay(w: World, order: seq<Folder>) {
    && w.lock.Walking?
    && (forall g :: g in w.lock.collected ==> Legible(w, order, g))
    && (forall g :: Legible(w, order, g) ==> Reachable(w, g))
    && (forall g :: g in w.lock.rows ==> Row(g, w.lock.current) in w.listed && w.lock.current in order)
    && (forall f :: f in w.lock.pending ==> f in order)
  }

  predicate WalkOnly(steps: seq<Step>) {
    forall s :: s in steps ==> s.OpenFolder? || s.ReadRow?
  }

  lemma WalkStepOnTheWay(w: World, order: seq<Folder>, step: Step)
    requires OnTheWay(w, order) && Enabled(w, step, true) && (step.OpenFolder? || step.ReadRow?)
    ensures OnTheWay(Next(w, step), order) && Next(w, step) == w.(lock := Next(w, step).lock)
  {
    var w' := Next(w, step);
    if step.OpenFolder? {
      var f := w.lock.pending[0];
      forall g ensures g in w'.lock.rows <==> Row(g, f) in w.listed { OpenedRow(w, g, f); }
      assert w.lock.pending == [f] + w.lock.pending[1..];
      assert f in w.lock.pending;
      forall g | Legible(w', order, g)
        ensures Reachable(w', g)
      {
        assert Legible(w, order, g) && Reachable(w, g);
      }
    } else {
      forall g | Legible(w', order, g)
        ensures Reachable(w', g)
      {
        assert Legible(w, order, g) && Reachable(w, g);
      }
    }
    assert forall g :: Legible(w', order, g) <==> Legible(w, order, g);
  }

  lemma {:induction false} WalkOnTheWay(w: World, order: seq<Folder>, steps: seq<Step>)
    requires OnTheWay(w, order) && Possible(w, steps, true) && WalkOnly(steps)
    ensures OnTheWay(Run(w, steps), order) && Run(w, steps) == w.(lock := Run(w, steps).lock)
    decreases steps
  {
    if steps != [] {
      assert steps[0] in steps && forall s :: s in steps[1..] ==> s in steps;
      WalkStepOnTheWay(w, order, steps[0]);
      WalkOnTheWay(Next(w, steps[0]), order, steps[1..]);
    }
  }

  /**
   * A rebuild nothing interferes with installs exactly the messages it can read; if there are none it
   * changes nothing.
   */
  lemma UndisturbedRebuild(w: World, order: seq<Folder>, steps: seq<Step>)
    requires Enabled(w, Begin(order), true) && Possible(Next(w, Begin(order)), steps, true) && WalkOnly(steps)
    requires Enabled(Run(Next(w, Begin(order)), steps), Install, true)
    ensures var after := Next(Run(Next(w, Begin(order)), steps), Install);
            && after == w.(live := after.live)
            && ((exists g :: Legible(w, order, g)) ==> forall g :: g in after.live <==> Legible(w, order, g))
            && ((forall g :: !Legible(w, order, g)) ==> after.live == w.live)
  {
    var begun := Next(w, Begin(order));
    assert OnTheWay(begun, order);
    WalkOnTheWay(begun, order, steps);
    var end := Run(begun, steps);
    assert forall g :: Legible(w, order, g) <==> Legible(end, order, g);
  }

  /** Only recording a placement and beginning a walk wait for the lock; mail comes, goes and moves without it. */
  lemma OnlyRecordsWait(w: World, g: Guid, f: Folder, order: seq<Folder>)
    ensures Enabled(w, Create(f), true)
    ensures g !in w.delivered && f in w.folders ==> Enabled(w, Store(g, f), true)
    ensures g in w.body && f in w.folders ==>
              Enabled(w, Expunge(g), true) && Enabled(w, Relocate(g, f), true) && Enabled(w, Enlist(g), true)
    ensures Row(g, f) in w.listed ==> Enabled(w, Delist(g, f), true)
    ensures g in w.delivered ==> (Enabled(w, Record(g), true) <==> w.lock.Free?) && Enabled(w, Record(g), false)
    ensures Enabled(w, Begin(order), true) ==> w.lock.Free? && forall h :: h in w.folders ==> h in order
  {
  }

  /** A walk never waits for anybody. */
  lemma WalkNeverStuck(w: World) returns (step: Step)
    requires w.lock.Walking?
    ensures Enabled(w, step, true) && (step.ReadRow? || step.OpenFolder? || step.Install?)
  {
    if w.lock.rows != {} {
      var g :| g in w.lock.rows;
      step := ReadRow(g);
    } else if w.lock.pending != [] {
      step := OpenFolder;
    } else {
      step := Install;
    }
  }

  /** An owed message the present walk will not come to. */
  ghost predicate Missed(w: World, g: Guid) {
    && Owed(w, g) && g in w.delivered && g in w.live && w.lock.Walking?
    && !Reachable(w, g)
  }

  /** The steps that put such a message back before the walk, or out of the account. */
  predicate Recovers(w: World, step: Step, g: Guid)
    requires w.lock.Walking?
  {
    || step == Expunge(g)
    || (step.Relocate? && step.guid == g
        && (step.folder in w.lock.pending || (g in w.lock.rows && step.folder == w.lock.current)))
  }

  /** While the walk lasts a missed message stays so until exactly such a step. */
  lemma MissedUntilRecovered(w: World, step: Step, g: Guid)
    requires Missed(w, g) && Enabled(w, step, true) && !step.Install? && !step.Abandon?
    ensures Missed(Next(w, step), g) <==> !Recovers(w, step, g)
  {
    if step.OpenFolder? {
      assert w.lock.pending == [w.lock.pending[0]] + w.lock.pending[1..];
    }
  }

  predicate Unrecovered(w: World, steps: seq<Step>, g: Guid)
    decreases steps
  {
    steps == [] ||
    (w.lock.Walking? && !steps[0].Install? && !steps[0].Abandon? && !Recovers(w, steps[0], g)
     && Unrecovered(Next(w, steps[0]), steps[1..], g))
  }

  lemma {:induction false} MissedThroughout(w: World, steps: seq<Step>, g: Guid)
    requires Missed(w, g) && Possible(w, steps, true) && Unrecovered(w, steps, g)
    ensures Missed(Run(w, steps), g)
    decreases steps
  {
    if steps != [] {
      MissedUntilRecovered(w, steps[0], g);
      MissedThroughout(Next(w, steps[0]), steps[1..], g);
    }
  }

  /**
   * Every miss, however the walk goes on: unless the message is moved back before the walk or
   * expunged, the install leaves it recorded, stored, readable and without an entry, if and only if
   * there was anything to install.
   */
  lemma MissLosesIff(w: World, miss: Step, g: Guid, steps: seq<Step>)
    requires Inv(w) && Enabled(w, miss, true)
    requires (Strays(w, miss) && g == miss.guid) || Overtakes(w, miss, g)
    requires Possible(Next(w, miss), steps, true) && Unrecovered(Next(w, miss), steps, g)
    requires Enabled(Run(Next(w, miss), steps), Install, true)
    ensures var end := Run(Next(w, miss), steps);
            var after := Next(end, Install);
            after.lock.Free? && Owed(after, g) && (g !in after.live <==> end.lock.collected != {})
  {
    if miss.OpenFolder? { OpenKeepsReachable(w, g); }
    assert Missed(Next(w, miss), g);
    MissedThroughout(Next(w, miss), steps, g);
  }

  lemma RunCons(w: World, step: Step, rest: seq<Step>, locking: bool)
    ensures Run(w, [step] + rest) == Run(Next(w, step), rest)
    ensures Possible(w, [step] + rest, locking) == (Enabled(w, step, locking) && Possible(Next(w, step), rest, locking))
  {
    assert ([step] + rest)[1..] == rest;
  }

  const INBOX_ROWS := {Row("a", "INBOX"), Row("b", "INBOX")}

  /** Two messages recorded and covered, and nobody rebuilding. */
  const START := World({"Archive", "INBOX"}, map["a" := "INBOX", "b" := "INBOX"], INBOX_ROWS,
                       {"a", "b"}, {"a", "b"}, {}, {"a", "b"}, Free)

  lemma RowsAre(w: World, f: Folder, gs: set<Guid>)
    requires forall g :: g in gs <==> Row(g, f) in w.listed
    ensures RowsOf(w, f) == gs
  {
    forall g ensures g in RowsOf(w, f) <==> g in gs { OpenedRow(w, g, f); }
  }

  /** Opening a folder that lists these messages. */
  lemma Opens(w: World, f: Folder, rest: seq<Folder>, gs: set<Guid>)
    requires w.lock.Walking? && w.lock.pending == [f] + rest
    requires forall g :: g in gs <==> Row(g, f) in w.listed
    ensures Next(w, OpenFolder) == w.(lock := Walking(rest, f, gs, w.lock.collected))
  {
    assert w.lock.pending[1..] == rest;
    RowsAre(w, f, gs);
  }

  /** A walk that has the archive behind it. */
  lemma PastArchive() returns (steps: seq<Step>)
    ensures Possible(START, steps, true)
    ensures Run(START, steps) == START.(lock := Walking(["INBOX"], "Archive", {}, {}))
  {
    var w1 := Next(START, Begin(["Archive", "INBOX"]));
    assert w1.lock.pending == ["Archive"] + ["INBOX"];
    Opens(w1, "Archive", ["INBOX"], {});
    steps := Prepend(w1, OpenFolder, [], true);
    steps := Prepend(START, Begin(["Archive", "INBOX"]), steps, true);
  }

  /** Moved behind the walk: recorded, still stored, readable, and gone from the installed sidecar. */
  lemma StrayMoveLosesPlacement() returns (steps: seq<Step>)
    ensures Possible(START, steps, true)
    ensures var w := Run(START, steps);
            w.lock.Free? && Owed(w, "a") && Row("a", w.body["a"]) in w.listed && "a" !in w.live
  {
    var before := PastArchive();
    var w2 := START.(lock := Walking(["INBOX"], "Archive", {}, {}));
    var w3 := Next(w2, Relocate("a", "Archive"));
    var w4 := Next(w3, Enlist("a"));
    var w5 := Next(w4, Delist("a", "INBOX"));
    assert w5.lock.pending == ["INBOX"] + [];
    Opens(w5, "INBOX", [], {"b"});
    var w6 := Next(w5, OpenFolder);
    var w7 := Next(w6, ReadRow("b"));
    assert w7.lock == Walking([], "INBOX", {}, {"b"}) by { assert {"b"} - {"b"} == {} && {} + {"b"} == {"b"}; }
    steps := Prepend(w7, Install, [], true);
    steps := Prepend(w6, ReadRow("b"), steps, true);
    steps := Prepend(w5, OpenFolder, steps, true);
    steps := Prepend(w4, Delist("a", "INBOX"), steps, true);
    steps := Prepend(w3, Enlist("a"), steps, true);
    steps := Prepend(w2, Relocate("a", "Archive"), steps, true);
    Joined(START, before, steps, true);
    steps := before + steps;
  }

  const IN_TRANSIT := START.(body := START.body["a" := "Archive"])

  /** A message moved while the walk reads its old folder, where its row can no longer be read. */
  lemma PastMove() returns (steps: seq<Step>)
    ensures Possible(START, steps, true)
    ensures Run(START, steps) == IN_TRANSIT.(lock := Walking(["Archive"], "INBOX", {}, {"b"}))
  {
    var w1 := Next(START, Begin(["INBOX", "Archive"]));
    assert w1.lock.pending == ["INBOX"] + ["Archive"];
    Opens(w1, "INBOX", ["Archive"], {"a", "b"});
    var w2 := Next(w1, OpenFolder);
    var w3 := Next(w2, Relocate("a", "Archive"));
    var w4 := Next(w3, ReadRow("a"));
    assert {"a", "b"} - {"a"} - {"b"} == {} && {} + {} + {"b"} == {"b"};
    steps := Prepend(w4, ReadRow("b"), [], true);
    steps := Prepend(w3, ReadRow("a"), steps, true);
    steps := Prepend(w2, Relocate("a", "Archive"), steps, true);
    steps := Prepend(w1, OpenFolder, steps, true);
    steps := Prepend(START, Begin(["INBOX", "Archive"]), steps, true);
  }

  /** Moved before the walk and overtaken: its old row cannot be read, and the new folder does not list it yet. */
  lemma OvertakenMoveLosesPlacement() returns (steps: seq<Step>)
    ensures Possible(START, steps, true)
    ensures var w := Run(START, steps);
            w.lock.Free? && Owed(w, "a") && Row("a", w.body["a"]) in w.listed && "a" !in w.live
  {
    var before := PastMove();
    var w5 := IN_TRANSIT.(lock := Walking(["Archive"], "INBOX", {}, {"b"}));
    assert w5.lock.pending == ["Archive"] + [];
    Opens(w5, "Archive", [], {});
    var w6 := Next(w5, OpenFolder);
    var w7 := Next(w6, Enlist("a"));
    steps := Prepend(w7, Install, [], true);
    steps := Prepend(w6, Enlist("a"), steps, true);
    steps := Prepend(w5, OpenFolder, steps, true);
    Joined(START, before, steps, true);
    steps := before + steps;
  }

  /** A walk that has read the inbox. */
  lemma PastInbox() returns (steps: seq<Step>)
    ensures Possible(START, steps, false) && forall s :: s in steps ==> !s.Relocate?
    ensures Run(START, steps) == START.(lock := Walking(["Archive"], "INBOX", {}, {"a", "b"}))
  {
    var w1 := Next(START, Begin(["INBOX", "Archive"]));
    assert w1.lock.pending == ["INBOX"] + ["Archive"];
    Opens(w1, "INBOX", ["Archive"], {"a", "b"});
    var w2 := Next(w1, OpenFolder);
    var w3 := Next(w2, ReadRow("a"));
    var w4 := Next(w3, ReadRow("b"));
    assert {"a", "b"} - {"a"} - {"b"} == {} && {} + {"a"} + {"b"} == {"a", "b"};
    steps := Prepend(w3, ReadRow("b"), [], false);
    steps := Prepend(w2, ReadRow("a"), steps, false);
    steps := Prepend(w1, OpenFolder, steps, false);
    steps := Prepend(START, Begin(["INBOX", "Archive"]), steps, false);
  }

  /** Without the lock a delivery recorded behind the walk is overwritten by the install. */
  lemma UnlockedDeliveryLosesPlacement() returns (steps: seq<Step>)
    ensures Possible(START, steps, false)
    ensures forall s :: s in steps ==> !s.Relocate?
    ensures var w := Run(START, steps); w.lock.Free? && Owed(w, "c") && "c" !in w.live
  {
    var before := PastInbox();
    var w4 := START.(lock := Walking(["Archive"], "INBOX", {}, {"a", "b"}));
    var w5 := Next(w4, Store("c", "INBOX"));
    var w6 := Next(w5, Record("c"));
    assert w6.lock.pending == ["Archive"] + [];
    Opens(w6, "Archive", [], {});
    var w7 := Next(w6, OpenFolder);
    steps := Prepend(w7, Install, [], false);
    steps := Prepend(w6, OpenFolder, steps, false);
    steps := Prepend(w5, Record("c"), steps, false);
    steps := Prepend(w4, Store("c", "INBOX"), steps, false);
    Joined(START, before, steps, false);
    steps := before + steps;
  }

  lemma {:induction false} Joined(w: World, a: seq<Step>, b: seq<Step>, locking: bool)
    requires Possible(w, a, locking) && Possible(Run(w, a), b, locking)
    ensures Possible(w, a + b, locking) && Run(w, a + b) == Run(Run(w, a), b)
    decreases a
  {
    if a == [] {
      assert a + b == b;
    } else {
      assert (a + b)[1..] == a[1..] + b;
      Joined(Next(w, a[0]), a[1..], b, locking);
    }
  }

  lemma Prepend(w: World, step: Step, rest: seq<Step>, locking: bool) returns (steps: seq<Step>)
    requires Possible(Next(w, step), rest, locking) && Enabled(w, step, locking)
    ensures steps == [step] + rest
    ensures Possible(w, steps, locking)
    ensures Run(w, steps) == Run(Next(w, step), rest)
  {
    steps := [step] + rest;
    RunCons(w, step, rest, locking);
  }
}
