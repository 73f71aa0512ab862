/** Conversations as an independent notion: the connected components of "answers". */
module Conversations {
  import opened ThreadPlacement

  datatype Message = Message(guid: string, headers: Headers)

  function Front(ms: seq<Message>): seq<Message>
    requires ms != []
  {
    ms[..|ms| - 1]
  }

  function Last(ms: seq<Message>): Message
    requires ms != []
  {
    ms[|ms| - 1]
  }

  /** The account's state after its messages were delivered, or replayed, in this order. */
  function After(ms: seq<Message>): State {
    if ms == [] then EMPTY else Deliver(After(Front(ms)), Last(ms).guid, Last(ms).headers)
  }

  function GUIDs(ms: seq<Message>): set<string> {
    if ms == [] then {} else GUIDs(Front(ms)) + {Last(ms).guid}
  }

  /** Every message has an identity, and no two share one. */
  predicate DistinctGUIDs(ms: seq<Message>) {
    ms == [] || (DistinctGUIDs(Front(ms)) && Last(ms).guid != "" && Last(ms).guid !in GUIDs(Front(ms)))
  }

  lemma {:induction false} GUIDsMembers(ms: seq<Message>, i: int)
    requires 0 <= i < |ms|
    ensures ms[i].guid in GUIDs(ms)
  {
    if i < |ms| - 1 {
      GUIDsMembers(Front(ms), i);
    }
  }

  // ----- the reference relation -----

  /** The last message carrying this Message-ID, or -1. */
  function LastBearer(ms: seq<Message>, id: string): (i: int)
    ensures -1 <= i < |ms|
    ensures i >= 0 ==> ms[i].headers.messageID == id
  {
    if ms == [] then -1
    else if ms[|ms| - 1].headers.messageID == id then |ms| - 1
    else LastBearer(Front(ms), id)
  }

  /** The last message with this normalised subject, or -1. */
  function LastSubject(ms: seq<Message>, key: string): (i: int)
    ensures -1 <= i < |ms|
    ensures i >= 0 ==> ms[i].headers.subjectKey == key
  {
    if ms == [] then -1
    else if ms[|ms| - 1].headers.subjectKey == key then |ms| - 1
    else LastSubject(Front(ms), key)
  }

  ghost predicate Answers(before: seq<Message>, m: Message, i: int) {
    0 <= i && exists ref :: ref in RefsOf(m.headers) && LastBearer(before, ref) == i
  }

  /** What a new message attaches to: every message it answers; failing any, the last with its subject. */
  ghost predicate Joins(before: seq<Message>, m: Message, i: int) {
    || Answers(before, m, i)
    || (&& (forall a :: !Answers(before, m, a))
        && m.headers.subjectKey != "" && 0 <= i && LastSubject(before, m.headers.subjectKey) == i)
  }

  ghost predicate Adjacent(ms: seq<Message>, a: int, b: int) {
    || (0 <= a < b < |ms| && Joins(ms[..b], ms[b], a))
    || (0 <= b < a < |ms| && Joins(ms[..a], ms[a], b))
  }

  ghost predicate Path(ms: seq<Message>, p: seq<int>, a: int, b: int) {
    && p != [] && p[0] == a && p[|p| - 1] == b
    && (forall k :: 0 <= k < |p| ==> 0 <= p[k] < |ms|)
    && (forall k :: 0 <= k < |p| - 1 ==> Adjacent(ms, p[k], p[k + 1]))
  }

  ghost predicate Connected(ms: seq<Message>, a: int, b: int) {
    exists p :: Path(ms, p, a, b)
  }

  lemma {:induction false} ReversedPath(ms: seq<Message>, p: seq<int>, a: int, b: int)
    requires Path(ms, p, a, b)
    ensures Connected(ms, b, a)
  {
    var q := seq(|p|, k requires 0 <= k < |p| => p[|p| - 1 - k]);
    forall k | 0 <= k < |q| - 1
      ensures Adjacent(ms, q[k], q[k + 1])
    {
      assert Adjacent(ms, p[|p| - 2 - k], p[|p| - 2 - k + 1]);
    }
    assert Path(ms, q, b, a);
  }

  lemma ConnectedChain(ms: seq<Message>, a: int, b: int, c: int)
    requires Connected(ms, a, b) && Connected(ms, b, c)
    ensures Connected(ms, a, c)
  {
    var p :| Path(ms, p, a, b);
    var q :| Path(ms, q, b, c);
    var r := p + q[1..];
    forall k | 0 <= k < |r| - 1
      ensures Adjacent(ms, r[k], r[k + 1])
    {
      if k < |p| - 1 {
        assert Adjacent(ms, p[k], p[k + 1]);
      } else {
        assert Adjacent(ms, q[k - (|p| - 1)], q[k - (|p| - 1) + 1]);
      }
    }
    assert Path(ms, r, a, c);
  }

  lemma AdjacentConnected(ms: seq<Message>, a: int, b: int)
    requires Adjacent(ms, a, b)
    ensures Connected(ms, a, b) && Connected(ms, b, a)
  {
    assert Path(ms, [a, b], a, b) && Path(ms, [b, a], b, a);
  }

  lemma ConnectedGrows(ms: seq<Message>, a: int, b: int)
    requires ms != [] && Connected(Front(ms), a, b)
    ensures Connected(ms, a, b)
  {
    var before := Front(ms);
    var p :| Path(before, p, a, b);
    forall k | 0 <= k < |p| - 1
      ensures Adjacent(ms, p[k], p[k + 1])
    {
      assert Adjacent(before, p[k], p[k + 1]);
      assert before[..p[k]] == ms[..p[k]] && before[..p[k + 1]] == ms[..p[k + 1]];
    }
    assert Path(ms, p, a, b);
  }

  // ----- what the state says about the messages -----

  function Assigned(ms: seq<Message>, i: int): ThreadId
    requires 0 <= i < |ms|
  {
    PlacementFor(After(ms[..i]), ms[i].guid, ms[i].headers).threadID
  }

  /** The conversation a delivered message is in now. */
  function Thread(ms: seq<Message>, i: int): ThreadId
    requires 0 <= i < |ms|
  {
    Resolve(After(ms).aliasOf, Assigned(ms, i))
  }

  lemma {:induction false} AfterSound(ms: seq<Message>)
    requires DistinctGUIDs(ms)
    ensures Sound(After(ms))
  {
    if ms != [] {
      AfterSound(Front(ms));
      DeliverKeepsSound(After(Front(ms)), Last(ms).guid, Last(ms).headers);
    }
  }

  /** A message keeps the thread it was placed in whatever comes after. */
  lemma AssignedKept(ms: seq<Message>, i: int)
    requires ms != [] && 0 <= i < |ms| - 1
    ensures Assigned(Front(ms), i) == Assigned(ms, i)
  {
    assert Front(ms)[..i] == ms[..i];
  }

  lemma AfterLast(ms: seq<Message>)
    requires ms != []
    ensures var s, n := After(Front(ms)), |ms| - 1;
            var h := Last(ms).headers;
            && After(ms).byMessage
              == (if h.messageID != "" then s.byMessage[h.messageID := Assigned(ms, n)] else s.byMessage)
            && After(ms).bySubject
              == (if h.subjectKey != "" then s.bySubject[h.subjectKey := Assigned(ms, n)] else s.bySubject)
  {
    assert ms[..|ms| - 1] == Front(ms);
  }

  lemma {:induction false} AfterByMessage(ms: seq<Message>, id: string)
    requires id != ""
    ensures id in After(ms).byMessage <==> LastBearer(ms, id) >= 0
    ensures LastBearer(ms, id) >= 0 ==> After(ms).byMessage[id] == Assigned(ms, LastBearer(ms, id))
  {
    if ms != [] {
      AfterByMessage(Front(ms), id);
      AfterLast(ms);
      var i := LastBearer(Front(ms), id);
      if i >= 0 { AssignedKept(ms, i); }
    }
  }

  lemma {:induction false} AfterBySubject(ms: seq<Message>, key: string)
    requires key != ""
    ensures key in After(ms).bySubject <==> LastSubject(ms, key) >= 0
    ensures LastSubject(ms, key) >= 0 ==> After(ms).bySubject[key] == Assigned(ms, LastSubject(ms, key))
  {
    if ms != [] {
      AfterBySubject(Front(ms), key);
      AfterLast(ms);
      var i := LastSubject(Front(ms), key);
      if i >= 0 { AssignedKept(ms, i); }
    }
  }

  lemma {:induction false} AfterByGUID(ms: seq<Message>, i: int)
    requires DistinctGUIDs(ms) && 0 <= i < |ms|
    ensures ms[i].guid in After(ms).byGUID && After(ms).byGUID[ms[i].guid] == Assigned(ms, i)
  {
    if i < |ms| - 1 {
      AfterByGUID(Front(ms), i);
      GUIDsMembers(Front(ms), i);
      assert Front(ms)[..i] == ms[..i];
    }
  }

  /** Every id in the state is the identity of a delivered message. */
  ghost predicate NamesOnly(s: State, guids: set<string>) {
    && s.byMessage.Values <= guids && s.bySubject.Values <= guids && s.byGUID.Values <= guids
    && s.aliasOf.Keys <= guids && s.aliasOf.Values <= guids
  }

  lemma {:induction false} FollowStaysAmong(alias: map<ThreadId, ThreadId>, id: ThreadId, n: nat, guids: set<string>)
    requires id in guids && alias.Values <= guids
    ensures Follow(alias, id, n) in guids
    decreases n
  {
    if n > 0 && !Settled(alias, id) {
      assert alias[id] in alias.Values;
      FollowStaysAmong(alias, alias[id], n - 1, guids);
    }
  }

  lemma PlacementNamesOnly(s: State, guid: string, h: Headers, guids: set<string>)
    requires NamesOnly(s, guids) && guid in guids
    ensures var p := PlacementFor(s, guid, h);
            p.threadID in guids && forall id :: id in p.mergedFrom ==> id in guids
  {
    forall id | id in Hits(s, RefsOf(h))
      ensures id in guids
    {
      HitsMembers(s, RefsOf(h), id);
      var ref :| ref in RefsOf(h) && ref in s.byMessage && ThreadOfMessage(s, ref) == id;
      assert s.byMessage[ref] in s.byMessage.Values;
      FollowStaysAmong(s.aliasOf, s.byMessage[ref], |s.aliasOf| + 1, guids);
    }
    if h.subjectKey in s.bySubject {
      assert s.bySubject[h.subjectKey] in s.bySubject.Values;
      FollowStaysAmong(s.aliasOf, s.bySubject[h.subjectKey], |s.aliasOf| + 1, guids);
    }
  }

  lemma {:induction false} AfterNamesOnly(ms: seq<Message>)
    ensures NamesOnly(After(ms), GUIDs(ms))
  {
    if ms != [] {
      var s := After(Front(ms));
      AfterNamesOnly(Front(ms));
      assert NamesOnly(s, GUIDs(ms));
      PlacementNamesOnly(s, Last(ms).guid, Last(ms).headers, GUIDs(ms));
    }
  }

  // ----- one more message -----

  /** The new message attaches to something in this message's conversation. */
  ghost predicate Reaches(before: seq<Message>, m: Message, i: int)
    requires 0 <= i < |before|
  {
    exists a :: 0 <= a < |before| && Joins(before, m, a) && Thread(before, a) == Thread(before, i)
  }

  lemma HitsAreAnswered(before: seq<Message>, m: Message, i: int)
    requires 0 <= i < |before|
    ensures Thread(before, i) in Hits(After(before), RefsOf(m.headers)) <==>
            exists a :: 0 <= a < |before| && Answers(before, m, a) && Thread(before, a) == Thread(before, i)
  {
    var s, refs := After(before), RefsOf(m.headers);
    HitsMembers(s, refs, Thread(before, i));
    forall ref | ref in refs
      ensures ref in s.byMessage <==> LastBearer(before, ref) >= 0
      ensures LastBearer(before, ref) >= 0 ==>
                Answers(before, m, LastBearer(before, ref))
                && ThreadOfMessage(s, ref) == Thread(before, LastBearer(before, ref))
    {
      RefsExcludeSelf(m.headers, ref);
      AfterByMessage(before, ref);
    }
  }

  lemma NoHitsNoAnswers(before: seq<Message>, m: Message)
    ensures Hits(After(before), RefsOf(m.headers)) == [] <==> forall a :: !Answers(before, m, a)
  {
    var hits := Hits(After(before), RefsOf(m.headers));
    if hits != [] {
      HitsMembers(After(before), RefsOf(m.headers), hits[0]);
      var ref :| ref in RefsOf(m.headers) && ref in After(before).byMessage;
      RefsExcludeSelf(m.headers, ref);
      AfterByMessage(before, ref);
      assert Answers(before, m, LastBearer(before, ref));
    } else if a :| Answers(before, m, a) {
      HitsAreAnswered(before, m, a);
    }
  }

  lemma ReachedWhenAnswered(before: seq<Message>, m: Message, i: int)
    requires 0 <= i < |before| && Hits(After(before), RefsOf(m.headers)) != []
    ensures Thread(before, i) in Hits(After(before), RefsOf(m.headers)) <==> Reaches(before, m, i)
  {
    NoHitsNoAnswers(before, m);
    HitsAreAnswered(before, m, i);
  }

  lemma ReachedBySubject(before: seq<Message>, m: Message, i: int, j: int)
    requires 0 <= i < |before| && 0 <= j < |before| && Hits(After(before), RefsOf(m.headers)) == []
    requires Reaches(before, m, i) && Reaches(before, m, j)
    ensures Thread(before, i) == Thread(before, j)
  {
    NoHitsNoAnswers(before, m);
  }

  /** Two earlier conversations become one exactly when the new message attaches to both. */
  lemma OldThreadsStep(ms: seq<Message>, i: int, j: int)
    requires DistinctGUIDs(ms) && 0 <= i < |ms| - 1 && 0 <= j < |ms| - 1
    ensures var before, m := Front(ms), Last(ms);
            Thread(ms, i) == Thread(ms, j) <==>
            Thread(before, i) == Thread(before, j) || (Reaches(before, m, i) && Reaches(before, m, j))
  {
    var before, m := Front(ms), Last(ms);
    AfterSound(before);
    AssignedKept(ms, i);
    AssignedKept(ms, j);
    DeliverMergesExactly(After(before), m.guid, m.headers, Assigned(before, i), Assigned(before, j));
    if Hits(After(before), RefsOf(m.headers)) != [] {
      ReachedWhenAnswered(before, m, i);
      ReachedWhenAnswered(before, m, j);
    } else if Reaches(before, m, i) && Reaches(before, m, j) {
      ReachedBySubject(before, m, i, j);
    }
  }

  lemma MintedThreadIsNew(before: seq<Message>, guid: string, i: int)
    requires DistinctGUIDs(before) && guid !in GUIDs(before) && 0 <= i < |before|
    ensures Resolve(After(before).aliasOf, guid) == guid
    ensures Thread(before, i) != guid
  {
    AfterNamesOnly(before);
    AfterByGUID(before, i);
    var s := After(before);
    assert s.byGUID[before[i].guid] in s.byGUID.Values;
    FollowStaysAmong(s.aliasOf, Assigned(before, i), |s.aliasOf| + 1, GUIDs(before));
  }

  lemma PlacedBySubject(before: seq<Message>, m: Message)
    requires DistinctGUIDs(before) && Hits(After(before), RefsOf(m.headers)) == []
    requires m.headers.subjectKey != "" && m.headers.subjectKey in After(before).bySubject
    ensures var s, a := After(before), LastSubject(before, m.headers.subjectKey);
            && 0 <= a < |before|
            && PlacementFor(s, m.guid, m.headers).threadID == Thread(before, a)
            && Resolve(s.aliasOf, Thread(before, a)) == Thread(before, a)
  {
    AfterSound(before);
    KnownThreadsSettled(After(before));
    AfterBySubject(before, m.headers.subjectKey);
  }

  lemma ReachesBySubject(before: seq<Message>, m: Message, i: int)
    requires 0 <= i < |before| && m.headers.subjectKey != "" && forall a :: !Answers(before, m, a)
    requires 0 <= LastSubject(before, m.headers.subjectKey) < |before|
    ensures Reaches(before, m, i) <==> Thread(before, LastSubject(before, m.headers.subjectKey)) == Thread(before, i)
  {
    assert Joins(before, m, LastSubject(before, m.headers.subjectKey));
  }

  lemma NewThreadWithoutAnswers(before: seq<Message>, m: Message, i: int)
    requires DistinctGUIDs(before) && m.guid !in GUIDs(before) && 0 <= i < |before|
    requires Hits(After(before), RefsOf(m.headers)) == []
    ensures var s := After(before);
            (Resolve(s.aliasOf, PlacementFor(s, m.guid, m.headers).threadID) == Thread(before, i))
            <==> Reaches(before, m, i)
  {
    var s, key := After(before), m.headers.subjectKey;
    NoHitsNoAnswers(before, m);
    if key != "" && key in s.bySubject {
      PlacedBySubject(before, m);
      ReachesBySubject(before, m, i);
    } else {
      if key != "" { AfterBySubject(before, key); }
      MintedThreadIsNew(before, m.guid, i);
    }
  }

  lemma NewThreadWithAnswers(before: seq<Message>, m: Message, i: int)
    requires DistinctGUIDs(before) && m.guid != "" && 0 <= i < |before|
    requires Hits(After(before), RefsOf(m.headers)) != []
    ensures var s := After(before);
            var hits := Hits(s, RefsOf(m.headers));
            Resolve(s.aliasOf, PlacementFor(s, m.guid, m.headers).threadID) == hits[0]
            && (Thread(before, i) in hits <==> Reaches(before, m, i))
  {
    var s, hits := After(before), Hits(After(before), RefsOf(m.headers));
    AfterSound(before);
    PlacementMergeable(s, m.guid, m.headers);
    KnownThreadsSettled(s);
    HitsMembers(s, RefsOf(m.headers), hits[0]);
    ReachedWhenAnswered(before, m, i);
  }

  /** The new message is in an earlier message's conversation exactly when it attaches to it. */
  lemma NewThreadStep(ms: seq<Message>, i: int)
    requires DistinctGUIDs(ms) && 0 <= i < |ms| - 1
    ensures Thread(ms, |ms| - 1) == Thread(ms, i) <==> Reaches(Front(ms), Last(ms), i)
  {
    var before, m := Front(ms), Last(ms);
    var s := After(before);
    AfterSound(before);
    AssignedKept(ms, i);
    DeliverMergesExactly(s, m.guid, m.headers, Assigned(ms, |ms| - 1), Assigned(before, i));
    if Hits(s, RefsOf(m.headers)) != [] {
      NewThreadWithAnswers(before, m, i);
    } else {
      NewThreadWithoutAnswers(before, m, i);
    }
  }

  // ----- the theorem -----

  lemma {:induction false} AdjacentShareThread(ms: seq<Message>, a: int, b: int)
    requires DistinctGUIDs(ms) && 0 <= a < b < |ms| && Joins(ms[..b], ms[b], a)
    ensures Thread(ms, a) == Thread(ms, b)
  {
    if b == |ms| - 1 {
      assert Reaches(Front(ms), Last(ms), a);
      NewThreadStep(ms, a);
    } else {
      assert Front(ms)[..b] == ms[..b];
      AdjacentShareThread(Front(ms), a, b);
      OldThreadsStep(ms, a, b);
    }
  }

  lemma {:induction false} PathSharesThread(ms: seq<Message>, p: seq<int>, a: int, b: int)
    requires DistinctGUIDs(ms) && Path(ms, p, a, b)
    ensures Thread(ms, a) == Thread(ms, b)
    decreases |p|
  {
    if |p| > 1 {
      var q := p[..|p| - 1];
      var c := q[|q| - 1];
      assert Adjacent(ms, p[|p| - 2], p[|p| - 2 + 1]);
      if c < b { AdjacentShareThread(ms, c, b); } else { AdjacentShareThread(ms, b, c); }
      PathSharesThread(ms, q, a, c);
    }
  }

  lemma AttachedIsConnected(ms: seq<Message>, a: int, i: int)
    requires ms != [] && 0 <= a < |ms| - 1 && Joins(Front(ms), Last(ms), a) && Connected(Front(ms), a, i)
    ensures Connected(ms, |ms| - 1, i) && Connected(ms, i, |ms| - 1)
  {
    var n := |ms| - 1;
    assert Adjacent(ms, n, a);
    AdjacentConnected(ms, n, a);
    ConnectedGrows(ms, a, i);
    ConnectedChain(ms, n, a, i);
    var p :| Path(ms, p, n, i);
    ReversedPath(ms, p, n, i);
  }

  lemma {:induction false} ReachedIsConnected(ms: seq<Message>, i: int)
    requires DistinctGUIDs(ms) && 0 <= i < |ms| - 1 && Reaches(Front(ms), Last(ms), i)
    ensures Connected(ms, |ms| - 1, i) && Connected(ms, i, |ms| - 1)
    decreases |ms|, 0
  {
    var before := Front(ms);
    var a :| 0 <= a < |before| && Joins(before, Last(ms), a) && Thread(before, a) == Thread(before, i);
    SharedThreadIsConnected(before, a, i);
    AttachedIsConnected(ms, a, i);
  }

  lemma {:induction false} SharedThreadIsConnected(ms: seq<Message>, i: int, j: int)
    requires DistinctGUIDs(ms) && 0 <= i < |ms| && 0 <= j < |ms| && Thread(ms, i) == Thread(ms, j)
    ensures Connected(ms, i, j)
    decreases |ms|, 1
  {
    var n := |ms| - 1;
    if i == j {
      assert Path(ms, [i], i, j);
    } else if i == n {
      NewThreadStep(ms, j);
      ReachedIsConnected(ms, j);
    } else if j == n {
      NewThreadStep(ms, i);
      ReachedIsConnected(ms, i);
    } else {
      OldThreadsStep(ms, i, j);
      if Thread(Front(ms), i) == Thread(Front(ms), j) {
        SharedThreadIsConnected(Front(ms), i, j);
        ConnectedGrows(ms, i, j);
      } else {
        ReachedIsConnected(ms, i);
        ReachedIsConnected(ms, j);
        ConnectedChain(ms, i, n, j);
      }
    }
  }

  /**
   * For every history of deliveries, two messages are in one conversation exactly when a chain of
   * answers connects them, whatever merges happened on the way.
   */
  lemma ConversationsAreComponents(ms: seq<Message>, i: int, j: int)
    requires DistinctGUIDs(ms) && 0 <= i < |ms| && 0 <= j < |ms|
    ensures ms[i].guid in After(ms).byGUID && ms[j].guid in After(ms).byGUID
    ensures ThreadOfGUID(After(ms), ms[i].guid) == ThreadOfGUID(After(ms), ms[j].guid) <==> Connected(ms, i, j)
  {
    AfterByGUID(ms, i);
    AfterByGUID(ms, j);
    if Connected(ms, i, j) {
      var p :| Path(ms, p, i, j);
      PathSharesThread(ms, p, i, j);
    }
    if Thread(ms, i) == Thread(ms, j) {
      SharedThreadIsConnected(ms, i, j);
    }
  }

  // ----- the same messages in another order -----

  /** The account's state puts both messages into one conversation. */
  ghost predicate Together(ms: seq<Message>, a: string, b: string) {
    var s := After(ms);
    a in s.byGUID && b in s.byGUID && ThreadOfGUID(s, a) == ThreadOfGUID(s, b)
  }

  ghost predicate SameConversations(a: seq<Message>, b: seq<Message>) {
    forall i, j :: 0 <= i < |a| && 0 <= j < |a| ==>
      (Together(a, a[i].guid, a[j].guid) <==> Together(b, a[i].guid, a[j].guid))
  }

  /** Message `i` of the one order is message `at[i]` of the other. */
  ghost predicate Rearranged(a: seq<Message>, b: seq<Message>, at: seq<int>) {
    |at| == |a| && forall i :: 0 <= i < |a| ==> 0 <= at[i] < |b| && b[at[i]] == a[i]
  }

  ghost predicate SameChains(a: seq<Message>, b: seq<Message>, at: seq<int>)
    requires Rearranged(a, b, at)
  {
    forall i, j :: 0 <= i < |a| && 0 <= j < |a| ==> (Connected(a, i, j) <==> Connected(b, at[i], at[j]))
  }

  lemma TogetherIff(ms: seq<Message>, i: int, j: int)
    requires DistinctGUIDs(ms) && 0 <= i < |ms| && 0 <= j < |ms|
    ensures Together(ms, ms[i].guid, ms[j].guid) <==> Connected(ms, i, j)
  {
    ConversationsAreComponents(ms, i, j);
  }

  /** Replayed in another order, messages fall into the same conversations iff the same chains connect them there. */
  lemma SameConversationsIff(a: seq<Message>, b: seq<Message>, at: seq<int>)
    requires DistinctGUIDs(a) && DistinctGUIDs(b) && Rearranged(a, b, at)
    ensures SameConversations(a, b) <==> SameChains(a, b, at)
  {
    if SameConversations(a, b) {
      forall i, j | 0 <= i < |a| && 0 <= j < |a|
        ensures Connected(a, i, j) <==> Connected(b, at[i], at[j])
      {
        TogetherIff(a, i, j);
        TogetherIff(b, at[i], at[j]);
      }
    }
    if SameChains(a, b, at) {
      forall i, j | 0 <= i < |a| && 0 <= j < |a|
        ensures Together(a, a[i].guid, a[j].guid) <==> Together(b, a[i].guid, a[j].guid)
      {
        TogetherIff(a, i, j);
        TogetherIff(b, at[i], at[j]);
      }
    }
  }

  ghost predicate JoinsCarryOver(a: seq<Message>, b: seq<Message>, at: seq<int>)
    requires Rearranged(a, b, at)
  {
    forall i, j :: 0 <= i < |a| && 0 <= j < |a| && Adjacent(a, i, j) ==> Adjacent(b, at[i], at[j])
  }

  lemma ChainCarriesOver(a: seq<Message>, b: seq<Message>, at: seq<int>, i: int, j: int)
    requires Rearranged(a, b, at) && JoinsCarryOver(a, b, at) && 0 <= i < |a| && 0 <= j < |a| && Connected(a, i, j)
    ensures Connected(b, at[i], at[j])
  {
    var p :| Path(a, p, i, j);
    var q := seq(|p|, k requires 0 <= k < |p| => at[p[k]]);
    forall k | 0 <= k < |q| - 1
      ensures Adjacent(b, q[k], q[k + 1])
    {
      assert Adjacent(a, p[k], p[k + 1]);
    }
    assert Path(b, q, at[i], at[j]);
  }

  /** It is enough that every message joins the same ones in both orders. */
  lemma SameJoinsSameConversations(a: seq<Message>, b: seq<Message>, at: seq<int>, back: seq<int>)
    requires DistinctGUIDs(a) && DistinctGUIDs(b) && Rearranged(a, b, at) && Rearranged(b, a, back)
    requires (forall i :: 0 <= i < |a| ==> back[at[i]] == i) && JoinsCarryOver(a, b, at) && JoinsCarryOver(b, a, back)
    ensures SameConversations(a, b)
  {
    forall i, j | 0 <= i < |a| && 0 <= j < |a|
      ensures Connected(a, i, j) <==> Connected(b, at[i], at[j])
    {
      if Connected(a, i, j) { ChainCarriesOver(a, b, at, i, j); }
      if Connected(b, at[i], at[j]) { ChainCarriesOver(b, a, back, at[i], at[j]); }
    }
    SameConversationsIff(a, b, at);
  }

  lemma PairTogetherIff(x: Message, y: Message)
    requires DistinctGUIDs([x, y])
    ensures Together([x, y], x.guid, y.guid) <==> Joins([x], y, 0)
    ensures Together([x, y], y.guid, x.guid) <==> Joins([x], y, 0)
  {
    var ms := [x, y];
    assert ms[..1] == [x];
    ConversationsAreComponents(ms, 0, 1);
    ConversationsAreComponents(ms, 1, 0);
    if Joins([x], y, 0) {
      assert Adjacent(ms, 0, 1);
      AdjacentConnected(ms, 0, 1);
    } else if Connected(ms, 0, 1) {
      var p :| Path(ms, p, 0, 1);
      PathOfTwo(ms, p);
    }
  }

  lemma {:induction false} PathOfTwo(ms: seq<Message>, p: seq<int>)
    requires |ms| == 2 && Path(ms, p, 0, 1)
    ensures Joins(ms[..1], ms[1], 0)
    decreases |p|
  {
    assert Adjacent(ms, p[0], p[1]);
  }

  /**
   * A reply and what it answers, delivered in that order, are one conversation; met the other way
   * round they are two, unless the first message answers the reply or has its subject.
   */
  lemma ReplyMetFirst(original: Message, reply: Message)
    requires DistinctGUIDs([original, reply]) && DistinctGUIDs([reply, original])
    requires original.headers.messageID in RefsOf(reply.headers)
    requires reply.headers.messageID !in RefsOf(original.headers)
    requires original.headers.subjectKey == "" || original.headers.subjectKey != reply.headers.subjectKey
    ensures Together([original, reply], original.guid, reply.guid)
    ensures !Together([reply, original], original.guid, reply.guid)
  {
    PairTogetherIff(original, reply);
    PairTogetherIff(reply, original);
    assert LastBearer([original], original.headers.messageID) == 0;
    assert Answers([original], reply, 0);
    forall ref | ref in RefsOf(original.headers) ensures LastBearer([reply], ref) == -1 {
      assert Front([reply]) == [];
    }
    assert Front([reply]) == [] && !Answers([reply], original, 0);
  }

  /** One message comes before another. */
  ghost predicate Before(ms: seq<Message>, x: Message, y: Message) {
    exists i, j :: 0 <= i < j < |ms| && ms[i] == x && ms[j] == y
  }

  lemma {:induction false} OnlyBearer(ms: seq<Message>, i: int, id: string)
    requires 0 <= i < |ms| && ms[i].headers.messageID == id
    requires forall k :: 0 <= k < |ms| && ms[k].headers.messageID == id ==> k == i
    ensures LastBearer(ms, id) == i
  {
    if i < |ms| - 1 {
      assert forall k :: 0 <= k < |Front(ms)| ==> Front(ms)[k] == ms[k];
      OnlyBearer(Front(ms), i, id);
    }
  }

  lemma {:induction false} SameGUIDSamePlace(ms: seq<Message>, i: int, j: int)
    requires DistinctGUIDs(ms) && 0 <= i < |ms| && 0 <= j < |ms| && ms[i].guid == ms[j].guid
    ensures i == j
  {
    var n := |ms| - 1;
    if i < n && j < n {
      SameGUIDSamePlace(Front(ms), i, j);
    } else if i < n {
      GUIDsMembers(Front(ms), i);
    } else if j < n {
      GUIDsMembers(Front(ms), j);
    }
  }

  /** A reply that comes after the only message it can mean by one of its references is in its conversation. */
  lemma ReplyJoinsOriginal(ms: seq<Message>, original: Message, reply: Message)
    requires DistinctGUIDs(ms) && Before(ms, original, reply)
    requires original.headers.messageID in RefsOf(reply.headers)
    requires forall m :: m in ms && m.headers.messageID == original.headers.messageID ==> m.guid == original.guid
    ensures Together(ms, original.guid, reply.guid)
  {
    var i, j :| 0 <= i < j < |ms| && ms[i] == original && ms[j] == reply;
    var earlier, id := ms[..j], original.headers.messageID;
    forall k | 0 <= k < |earlier| && earlier[k].headers.messageID == id
      ensures k == i
    {
      assert ms[k] in ms;
      SameGUIDSamePlace(ms, k, i);
    }
    OnlyBearer(earlier, i, id);
    assert Answers(earlier, reply, i);
    assert Adjacent(ms, i, j);
    AdjacentConnected(ms, i, j);
    TogetherIff(ms, i, j);
  }
}
