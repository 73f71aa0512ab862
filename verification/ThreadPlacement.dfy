/** Which conversation a message belongs to: internal/threading and the folded sidecar state. */
module ThreadPlacement {
  import opened Order

  type ThreadId = string

  /** The headers threading reads; `subjectKey` is the normalised subject. */
  datatype Headers = Headers(messageID: string, inReplyTo: seq<string>, references: seq<string>, subjectKey: string)

  datatype Placement = Placement(
    guid: string, messageID: string, subjectKey: string, threadID: ThreadId, mergedFrom: seq<ThreadId>)

  /** What the account knows about its conversations. */
  datatype State = State(
    byMessage: map<string, ThreadId>,
    bySubject: map<string, ThreadId>,
    byGUID: map<string, ThreadId>,
    aliasOf: map<ThreadId, ThreadId>)

  const EMPTY := State(map[], map[], map[], map[])

  // ----- aliases -----

  predicate Settled(alias: map<ThreadId, ThreadId>, id: ThreadId) {
    id == "" || id !in alias
  }

  function Follow(alias: map<ThreadId, ThreadId>, id: ThreadId, steps: nat): ThreadId
    decreases steps
  {
    if steps == 0 || Settled(alias, id) then id else Follow(alias, alias[id], steps - 1)
  }

  /** The thread that survives: at most one step more than there are aliases. */
  function Resolve(alias: map<ThreadId, ThreadId>, id: ThreadId): ThreadId {
    Follow(alias, id, |alias| + 1)
  }

  /** The bounded loop of `State.resolve`. */
  method ResolveAlias(alias: map<ThreadId, ThreadId>, start: ThreadId) returns (id: ThreadId)
    ensures id == Resolve(alias, start)
  {
    id := start;
    var i := 0;
    while id != "" && i < |alias| + 1
      invariant 0 <= i <= |alias| + 1
      invariant Follow(alias, id, |alias| + 1 - i) == Resolve(alias, start)
    {
      if id !in alias { return; }
      id := alias[id];
      i := i + 1;
    }
  }

  /** Every chain of aliases ends. */
  ghost predicate Forest(alias: map<ThreadId, ThreadId>) {
    forall id: ThreadId :: Settled(alias, Follow(alias, id, |alias|))
  }

  lemma {:induction false} FollowStaysSettled(alias: map<ThreadId, ThreadId>, id: ThreadId, n: nat, more: nat)
    requires Settled(alias, Follow(alias, id, n))
    ensures Follow(alias, id, n + more) == Follow(alias, id, n)
    decreases n
  {
    if n > 0 && !Settled(alias, id) {
      FollowStaysSettled(alias, alias[id], n - 1, more);
    }
  }

  lemma ResolveSettles(alias: map<ThreadId, ThreadId>, id: ThreadId)
    requires Forest(alias)
    ensures Settled(alias, Resolve(alias, id)) && Resolve(alias, id) == Follow(alias, id, |alias|)
  {
    FollowStaysSettled(alias, id, |alias|, 1);
  }

  // ----- cycles, which only a damaged file can hold -----

  lemma {:induction false} FollowOn(alias: map<ThreadId, ThreadId>, id: ThreadId, n: nat, m: nat)
    ensures Follow(alias, Follow(alias, id, n), m) == Follow(alias, id, n + m)
    decreases n
  {
    if n > 0 && !Settled(alias, id) {
      FollowOn(alias, alias[id], n - 1, m);
    }
  }

  /** The id comes back to itself after this many aliases, and no sooner. */
  ghost predicate Cycle(alias: map<ThreadId, ThreadId>, id: ThreadId, length: nat) {
    && length > 0 && Follow(alias, id, length) == id
    && forall i :: 0 < i < length ==> Follow(alias, id, i) != id
  }

  /** What is left of a number of steps after whole laps. */
  function Rest(n: nat, length: nat): (r: nat)
    requires length > 0
    ensures r < length
  {
    if n < length then n else Rest(n - length, length)
  }

  lemma {:induction false} Laps(alias: map<ThreadId, ThreadId>, id: ThreadId, length: nat, n: nat)
    requires Cycle(alias, id, length)
    ensures Follow(alias, id, n) == Follow(alias, id, Rest(n, length))
    decreases n
  {
    if n >= length {
      FollowOn(alias, id, length, n - length);
      Laps(alias, id, length, n - length);
    }
  }

  lemma {:induction false} RestCompleted(n: nat, length: nat)
    requires length > 0
    ensures Rest(n + (length - Rest(n, length)), length) == 0
  {
    if n >= length { RestCompleted(n - length, length); }
  }

  /** An id on a cycle is answered with itself, if and only if the bound on the steps is a whole number of laps. */
  lemma CycleAnswersItselfIff(alias: map<ThreadId, ThreadId>, id: ThreadId, length: nat)
    requires Cycle(alias, id, length)
    ensures Resolve(alias, id) == id <==> Rest(|alias| + 1, length) == 0
  {
    Laps(alias, id, length, |alias| + 1);
  }

  /** Two ids swallowed by each other, and nothing else: each is answered with the other. */
  lemma TwoCycleAnswersTheOther(a: ThreadId, b: ThreadId)
    requires a != b && a != "" && b != ""
    ensures Resolve(map[a := b, b := a], a) == b && Resolve(map[a := b, b := a], b) == a
  {
    var alias := map[a := b, b := a];
    assert alias.Keys == {a, b} && |alias| == |alias.Keys| == 2;
    FollowThree(alias, a, b);
    FollowThree(alias, b, a);
  }

  lemma FollowThree(alias: map<ThreadId, ThreadId>, a: ThreadId, b: ThreadId)
    requires a != "" && b != "" && a in alias && b in alias && alias[a] == b && alias[b] == a
    ensures Follow(alias, a, 3) == b
  {
    assert Follow(alias, b, 2) == Follow(alias, a, 1) == Follow(alias, b, 0);
  }

  /** The ids of one cycle are answered differently, as many answers as ids. */
  lemma CycleKeepsApart(alias: map<ThreadId, ThreadId>, id: ThreadId, length: nat, i: nat)
    requires Cycle(alias, id, length) && i < length
    ensures Resolve(alias, Follow(alias, id, i)) == Resolve(alias, id) <==> i == 0
  {
    var n := |alias| + 1;
    FollowOn(alias, id, i, n);
    FollowOn(alias, id, n, i);
    if i > 0 {
      var back := length - Rest(n, length);
      RestCompleted(n, length);
      Laps(alias, id, length, n + back);
      FollowOn(alias, id, n, back);
      FollowOn(alias, id, n + i, back);
      FollowOn(alias, id, n + back, i);
      assert Follow(alias, Follow(alias, id, n + i), back) == Follow(alias, id, i) != id;
    }
  }

  function Merge(alias: map<ThreadId, ThreadId>, olds: seq<ThreadId>, survivor: ThreadId): map<ThreadId, ThreadId> {
    alias + (map gone | gone in olds :: survivor)
  }

  ghost predicate Mergeable(alias: map<ThreadId, ThreadId>, olds: seq<ThreadId>, survivor: ThreadId) {
    && survivor !in olds && "" !in olds
    && (olds != [] ==> Settled(alias, survivor))
    && forall gone :: gone in olds ==> gone !in alias
  }

  function Redirect(olds: seq<ThreadId>, survivor: ThreadId, id: ThreadId): ThreadId {
    if id in olds then survivor else id
  }

  lemma {:induction false} FollowAfterMerge(
    alias: map<ThreadId, ThreadId>, olds: seq<ThreadId>, survivor: ThreadId, id: ThreadId, n: nat)
    requires Mergeable(alias, olds, survivor) && Settled(alias, Follow(alias, id, n))
    ensures Follow(Merge(alias, olds, survivor), id, n + 1) == Redirect(olds, survivor, Follow(alias, id, n))
    ensures Settled(Merge(alias, olds, survivor), Redirect(olds, survivor, Follow(alias, id, n)))
    decreases n
  {
    if n > 0 && !Settled(alias, id) {
      FollowAfterMerge(alias, olds, survivor, alias[id], n - 1);
    }
  }

  lemma MergeGrows(alias: map<ThreadId, ThreadId>, olds: seq<ThreadId>, survivor: ThreadId)
    requires Mergeable(alias, olds, survivor) && olds != []
    ensures |Merge(alias, olds, survivor)| >= |alias| + 1
  {
    var merged := Merge(alias, olds, survivor);
    assert olds[0] in merged && olds[0] !in alias;
    assert alias.Keys + {olds[0]} <= merged.Keys;
    SubsetSize(alias.Keys + {olds[0]}, merged.Keys);
  }

  lemma {:induction false} SubsetSize<T>(a: set<T>, b: set<T>)
    requires a <= b
    ensures |a| <= |b|
  {
    if a != {} {
      var x :| x in a;
      SubsetSize(a - {x}, b - {x});
    }
  }

  lemma MergeResolvesOne(alias: map<ThreadId, ThreadId>, olds: seq<ThreadId>, survivor: ThreadId, id: ThreadId)
    requires Mergeable(alias, olds, survivor) && olds != [] && Settled(alias, Follow(alias, id, |alias|))
    ensures var merged := Merge(alias, olds, survivor);
            Settled(merged, Follow(merged, id, |merged|))
            && Resolve(merged, id) == Redirect(olds, survivor, Resolve(alias, id))
  {
    var merged := Merge(alias, olds, survivor);
    var root := Redirect(olds, survivor, Follow(alias, id, |alias|));
    MergeGrows(alias, olds, survivor);
    FollowStaysSettled(alias, id, |alias|, 1);
    FollowAfterMerge(alias, olds, survivor, id, |alias|);
    assert Follow(merged, id, |alias| + 1) == root && Settled(merged, root);
    FollowStaysSettled(merged, id, |alias| + 1, |merged| - (|alias| + 1));
    assert Follow(merged, id, |merged|) == root;
    FollowStaysSettled(merged, id, |merged|, 1);
  }

  /** A merge redirects the merged threads to the survivor and touches nothing else. */
  lemma MergeResolves(alias: map<ThreadId, ThreadId>, olds: seq<ThreadId>, survivor: ThreadId)
    requires Forest(alias) && Mergeable(alias, olds, survivor)
    ensures Forest(Merge(alias, olds, survivor))
    ensures forall id :: Resolve(Merge(alias, olds, survivor), id) == Redirect(olds, survivor, Resolve(alias, id))
  {
    var merged := Merge(alias, olds, survivor);
    if olds == [] {
      assert merged == alias;
    } else {
      forall id: ThreadId
        ensures Settled(merged, Follow(merged, id, |merged|))
        ensures Resolve(merged, id) == Redirect(olds, survivor, Resolve(alias, id))
      {
        MergeResolvesOne(alias, olds, survivor, id);
      }
    }
  }

  // ----- placing one message -----

  function ThreadOfMessage(s: State, messageID: string): ThreadId
    requires messageID in s.byMessage
  {
    Resolve(s.aliasOf, s.byMessage[messageID])
  }

  function ThreadOfSubject(s: State, key: string): ThreadId
    requires key in s.bySubject
  {
    Resolve(s.aliasOf, s.bySubject[key])
  }

  function ThreadOfGUID(s: State, guid: string): ThreadId
    requires guid in s.byGUID
  {
    Resolve(s.aliasOf, s.byGUID[guid])
  }

  /** The ids a message claims to answer, its own excluded. */
  function RefsOf(h: Headers): seq<string> {
    var answers := (id: string) => id != "" && id != h.messageID;
    Filter(answers, h.inReplyTo) + Filter(answers, h.references)
  }

  lemma RefsExcludeSelf(h: Headers, ref: string)
    ensures ref in RefsOf(h) <==> (ref in h.inReplyTo || ref in h.references) && ref != "" && ref != h.messageID
  {
    var answers := (id: string) => id != "" && id != h.messageID;
    FilterMembers(answers, h.inReplyTo, ref);
    FilterMembers(answers, h.references, ref);
  }

  /** The distinct threads the answered ids belong to, in order of first sight. */
  function Hits(s: State, refs: seq<string>): seq<ThreadId> {
    if refs == [] then []
    else
      var before := Hits(s, refs[..|refs| - 1]);
      var ref := refs[|refs| - 1];
      if ref in s.byMessage && ThreadOfMessage(s, ref) !in before then before + [ThreadOfMessage(s, ref)] else before
  }

  lemma {:induction false} HitsMembers(s: State, refs: seq<string>, id: ThreadId)
    ensures id in Hits(s, refs) <==> exists ref :: ref in refs && ref in s.byMessage && ThreadOfMessage(s, ref) == id
  {
    if refs != [] {
      HitsMembers(s, refs[..|refs| - 1], id);
      assert refs == refs[..|refs| - 1] + [refs[|refs| - 1]];
    }
  }

  lemma {:induction false} HitsDistinct(s: State, refs: seq<string>)
    ensures forall i, j :: 0 <= i < j < |Hits(s, refs)| ==> Hits(s, refs)[i] != Hits(s, refs)[j]
  {
    if refs != [] {
      HitsDistinct(s, refs[..|refs| - 1]);
    }
  }

  function PlacementFor(s: State, guid: string, h: Headers): Placement {
    var hits := Hits(s, RefsOf(h));
    var joined :=
      if hits != [] then hits[0]
      else if h.subjectKey != "" && h.subjectKey in s.bySubject then ThreadOfSubject(s, h.subjectKey)
      else "";
    Placement(guid, h.messageID, h.subjectKey, if joined == "" then guid else joined,
              if hits != [] then hits[1..] else [])
  }

  lemma {:induction false} FirstHit(s: State, refs: seq<string>, k: nat)
    requires k < |refs| && refs[k] in s.byMessage && forall i :: 0 <= i < k ==> refs[i] !in s.byMessage
    ensures Hits(s, refs) != [] && Hits(s, refs)[0] == ThreadOfMessage(s, refs[k])
  {
    var n := |refs| - 1;
    if k < n {
      FirstHit(s, refs[..n], k);
    } else {
      NoHits(s, refs[..n]);
    }
  }

  lemma {:induction false} NoHits(s: State, refs: seq<string>)
    requires forall i :: 0 <= i < |refs| ==> refs[i] !in s.byMessage
    ensures Hits(s, refs) == []
  {
    if refs != [] { NoHits(s, refs[..|refs| - 1]); }
  }

  /** Of the messages it answers the first one known decides the thread, the direct parents before the chain. */
  lemma FirstKnownDecides(s: State, guid: string, h: Headers, k: nat)
    requires Sound(s) && k < |h.inReplyTo + h.references|
    requires var refs := h.inReplyTo + h.references;
             && refs[k] != "" && refs[k] != h.messageID && refs[k] in s.byMessage
             && forall i :: 0 <= i < k ==> refs[i] == "" || refs[i] == h.messageID || refs[i] !in s.byMessage
    ensures PlacementFor(s, guid, h).threadID
         == ThreadOfMessage(s, (h.inReplyTo + h.references)[k])
  {
    var answers := (id: string) => id != "" && id != h.messageID;
    var refs := h.inReplyTo + h.references;
    FilterConcat(answers, h.inReplyTo, h.references);
    assert refs == refs[..k] + refs[k..];
    FilterConcat(answers, refs[..k], refs[k..]);
    var before := Filter(answers, refs[..k]);
    assert Filter(answers, refs[k..]) == [refs[k]] + Filter(answers, refs[k..][1..]);
    forall i | 0 <= i < |before|
      ensures before[i] !in s.byMessage
    {
      FilterMembers(answers, refs[..k], before[i]);
    }
    assert RefsOf(h)[|before|] == refs[k];
    FirstHit(s, RefsOf(h), |before|);
    KnownThreadsSettled(s);
  }

  /** With none known the subject decides, and with no such subject the message starts a thread of its own. */
  lemma OtherwiseSubject(s: State, guid: string, h: Headers)
    requires Sound(s)
    requires forall ref :: ref in h.inReplyTo || ref in h.references ==>
               ref == "" || ref == h.messageID || ref !in s.byMessage
    ensures PlacementFor(s, guid, h).threadID
         == if h.subjectKey != "" && h.subjectKey in s.bySubject then ThreadOfSubject(s, h.subjectKey) else guid
    ensures PlacementFor(s, guid, h).mergedFrom == []
  {
    forall i | 0 <= i < |RefsOf(h)| ensures RefsOf(h)[i] !in s.byMessage { RefsExcludeSelf(h, RefsOf(h)[i]); }
    NoHits(s, RefsOf(h));
    KnownThreadsSettled(s);
  }

  /** The loop of `threading.Resolve` with the minting step of `PlacementFor`. */
  method Place(s: State, guid: string, h: Headers) returns (p: Placement)
    ensures p == PlacementFor(s, guid, h)
  {
    var refs := RefsOf(h);
    var seen: set<ThreadId>, threads: seq<ThreadId> := {}, [];
    for i := 0 to |refs|
      invariant threads == Hits(s, refs[..i])
      invariant forall id :: id in seen <==> id in threads
    {
      assert refs[..i + 1][..i] == refs[..i];
      if refs[i] in s.byMessage {
        var id := ResolveAlias(s.aliasOf, s.byMessage[refs[i]]);
        if id !in seen {
          seen, threads := seen + {id}, threads + [id];
        }
      }
    }
    assert refs[..|refs|] == refs;
    var threadID, merged: seq<ThreadId> := "", [];
    if |threads| > 0 {
      threadID, merged := threads[0], threads[1..];
    } else if h.subjectKey != "" && h.subjectKey in s.bySubject {
      threadID := ResolveAlias(s.aliasOf, s.bySubject[h.subjectKey]);
    }
    if threadID == "" { threadID := guid; }
    p := Placement(guid, h.messageID, h.subjectKey, threadID, merged);
  }

  /** The memory half of `threads.Append`. */
  function Apply(s: State, p: Placement): State {
    State(
      if p.messageID != "" then s.byMessage[p.messageID := p.threadID] else s.byMessage,
      if p.subjectKey != "" then s.bySubject[p.subjectKey := p.threadID] else s.bySubject,
      s.byGUID[p.guid := p.threadID],
      Merge(s.aliasOf, p.mergedFrom, p.threadID))
  }

  function Deliver(s: State, guid: string, h: Headers): State {
    Apply(s, PlacementFor(s, guid, h))
  }

  /** What every sequence of deliveries keeps. */
  ghost predicate Sound(s: State) {
    && Forest(s.aliasOf)
    && "" !in s.byMessage.Values && "" !in s.bySubject.Values && "" !in s.byGUID.Values && "" !in s.aliasOf.Values
  }

  lemma {:induction false} FollowNonEmpty(alias: map<ThreadId, ThreadId>, id: ThreadId, n: nat)
    requires id != "" && "" !in alias.Values
    ensures Follow(alias, id, n) != ""
    decreases n
  {
    if n > 0 && !Settled(alias, id) {
      assert alias[id] in alias.Values;
      FollowNonEmpty(alias, alias[id], n - 1);
    }
  }

  lemma KnownThreadsSettled(s: State)
    requires Sound(s)
    ensures forall m :: m in s.byMessage ==> ThreadOfMessage(s, m) != "" && ThreadOfMessage(s, m) !in s.aliasOf
    ensures forall k :: k in s.bySubject ==> ThreadOfSubject(s, k) != "" && ThreadOfSubject(s, k) !in s.aliasOf
    ensures forall g :: g in s.byGUID ==> ThreadOfGUID(s, g) != "" && ThreadOfGUID(s, g) !in s.aliasOf
  {
    forall id: ThreadId | id != ""
      ensures Resolve(s.aliasOf, id) != "" && Resolve(s.aliasOf, id) !in s.aliasOf
    {
      ResolveSettles(s.aliasOf, id);
      FollowNonEmpty(s.aliasOf, id, |s.aliasOf| + 1);
    }
    assert forall m :: m in s.byMessage ==> s.byMessage[m] in s.byMessage.Values;
    assert forall m :: m in s.bySubject ==> s.bySubject[m] in s.bySubject.Values;
    assert forall m :: m in s.byGUID ==> s.byGUID[m] in s.byGUID.Values;
  }

  lemma PlacementMergeable(s: State, guid: string, h: Headers)
    requires Sound(s) && guid != ""
    ensures var p := PlacementFor(s, guid, h);
            p.threadID != "" && Mergeable(s.aliasOf, p.mergedFrom, p.threadID)
    ensures var hits := Hits(s, RefsOf(h));
            hits != [] ==> PlacementFor(s, guid, h).threadID == hits[0]
  {
    var hits := Hits(s, RefsOf(h));
    KnownThreadsSettled(s);
    forall id | id in hits
      ensures id != "" && id !in s.aliasOf
    {
      HitsMembers(s, RefsOf(h), id);
    }
    HitsDistinct(s, RefsOf(h));
    if hits != [] {
      assert hits[0] in hits;
      assert forall id :: id in hits[1..] ==> id in hits;
    } else if h.subjectKey != "" && h.subjectKey in s.bySubject {
      assert ThreadOfSubject(s, h.subjectKey) != "";
    }
  }

  lemma PutKeepsNames(m: map<string, ThreadId>, key: string, id: ThreadId)
    requires "" !in m.Values && id != ""
    ensures "" !in m[key := id].Values
  {
  }

  lemma MergeKeepsNames(alias: map<ThreadId, ThreadId>, olds: seq<ThreadId>, survivor: ThreadId)
    requires "" !in alias.Values && survivor != ""
    ensures "" !in Merge(alias, olds, survivor).Values
  {
  }

  lemma DeliverKeepsSound(s: State, guid: string, h: Headers)
    requires Sound(s) && guid != ""
    ensures Sound(Deliver(s, guid, h))
  {
    var p := PlacementFor(s, guid, h);
    PlacementMergeable(s, guid, h);
    MergeResolves(s.aliasOf, p.mergedFrom, p.threadID);
    PutKeepsNames(s.byMessage, p.messageID, p.threadID);
    PutKeepsNames(s.bySubject, p.subjectKey, p.threadID);
    PutKeepsNames(s.byGUID, p.guid, p.threadID);
    MergeKeepsNames(s.aliasOf, p.mergedFrom, p.threadID);
  }

  /**
   * One delivery merges exactly the conversations the message answers: two thread ids come to
   * name one conversation if and only if they already did, or the message answers both.
   */
  lemma DeliverMergesExactly(s: State, guid: string, h: Headers, x: ThreadId, y: ThreadId)
    requires Sound(s) && guid != ""
    ensures var after := Deliver(s, guid, h).aliasOf;
            var hits := Hits(s, RefsOf(h));
            Resolve(after, x) == Resolve(after, y) <==>
            (Resolve(s.aliasOf, x) == Resolve(s.aliasOf, y)
             || (Resolve(s.aliasOf, x) in hits && Resolve(s.aliasOf, y) in hits))
  {
    var p := PlacementFor(s, guid, h);
    PlacementMergeable(s, guid, h);
    MergeResolves(s.aliasOf, p.mergedFrom, p.threadID);
    HitsDistinct(s, RefsOf(h));
  }

  /** The message lands in the conversation of every message it answers. */
  lemma DeliverJoinsAnswered(s: State, guid: string, h: Headers, ref: string)
    requires Sound(s) && guid != "" && ref in RefsOf(h) && ref in s.byMessage
    ensures var s' := Deliver(s, guid, h);
            ref in s'.byMessage && ThreadOfMessage(s', ref) == ThreadOfGUID(s', guid)
  {
    var p := PlacementFor(s, guid, h);
    PlacementMergeable(s, guid, h);
    MergeResolves(s.aliasOf, p.mergedFrom, p.threadID);
    HitsMembers(s, RefsOf(h), ThreadOfMessage(s, ref));
    RefsExcludeSelf(h, ref);
    var hits := Hits(s, RefsOf(h));
    HitsMembers(s, RefsOf(h), hits[0]);
    KnownThreadsSettled(s);
    assert Settled(s.aliasOf, hits[0]);
  }
}
