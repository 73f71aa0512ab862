/**
 * The lazily dialled userdb client: lookups share one published client under a mutex, redial it
 * when it fails, and retry once.
 */
module UserdbClient {
  import opened Basics

  type Client = nat
  type Lookup = nat

  /** Where a lookup stands. `Checking`, `Reviewing` and `Redialling` hold the mutex. */
  datatype Pc =
    | Idle
    | Checking
    | Using(client: Client)
    | Failed(client: Client)
    | Reviewing(client: Client)
    | Redialling(client: Client)
    | Retrying(client: Client, next: Option<Client>)
    | Done

  /** What happens to the shared client: a dial publishes one, or a redial fails and leaves none. */
  datatype Event = Published(t: Lookup) | RedialFailed(t: Lookup)

  /**
   * Clients are numbered in the order they were dialled. `log` is what happened to the shared
   * client, `since` how long that log was when a lookup took its client, and `decided` how long it
   * was when the lookup settled what to retry with.
   */
  datatype World = World(
    mutex: Option<Lookup>,
    published: Option<Client>,
    dialled: nat,
    closed: seq<Client>,
    at: map<Lookup, Pc>,
    dials: map<Lookup, nat>,
    log: seq<Event>,
    since: map<Lookup, nat>,
    decided: map<Lookup, nat>)

  datatype Step =
    | Start(t: Lookup)
    | Take(t: Lookup)
    | Dial(t: Lookup, ok: bool)
    | Answer(t: Lookup, ok: bool)
    | Relock(t: Lookup)
    | TakeOther(t: Lookup)
    | Close(t: Lookup)
    | Redial(t: Lookup, ok: bool)
    | AnswerRetry(t: Lookup)

  function PcOf(w: World, t: Lookup): Pc {
    if t in w.at then w.at[t] else Idle
  }

  function DialsOf(w: World, t: Lookup): nat {
    if t in w.dials then w.dials[t] else 0
  }

  function SinceOf(w: World, t: Lookup): nat {
    if t in w.since then w.since[t] else 0
  }

  function DecidedOf(w: World, t: Lookup): nat {
    if t in w.decided then w.decided[t] else 0
  }

  predicate Enabled(w: World, s: Step) {
    match s
    case Start(t) => PcOf(w, t).Idle? && w.mutex.None?
    case Take(t) => PcOf(w, t).Checking? && w.published.Some?
    case Dial(t, _) => PcOf(w, t).Checking? && w.published.None?
    case Answer(t, _) => PcOf(w, t).Using?
    case Relock(t) => PcOf(w, t).Failed? && w.mutex.None?
    case TakeOther(t) => PcOf(w, t).Reviewing? && w.published != Some(PcOf(w, t).client)
    case Close(t) => PcOf(w, t).Reviewing? && w.published == Some(PcOf(w, t).client)
    case Redial(t, _) => PcOf(w, t).Redialling?
    case AnswerRetry(t) => PcOf(w, t).Retrying?
  }

  function Next(w: World, s: Step): World
    requires Enabled(w, s)
  {
    var t := s.t;
    match s
    case Start(_) => w.(mutex := Some(t), at := w.at[t := Checking])
    case Take(_) =>
      w.(mutex := None, at := w.at[t := Using(w.published.value)], since := w.since[t := |w.log|])
    case Dial(_, ok) =>
      var dialling := w.(mutex := None, dials := w.dials[t := DialsOf(w, t) + 1]);
      if ok then
        dialling.(published := Some(w.dialled), dialled := w.dialled + 1,
                  at := w.at[t := Using(w.dialled)], log := w.log + [Published(t)], since := w.since[t := |w.log| + 1])
      else dialling.(at := w.at[t := Done])
    case Answer(_, ok) => w.(at := w.at[t := if ok then Done else Failed(PcOf(w, t).client)])
    case Relock(_) => w.(mutex := Some(t), at := w.at[t := Reviewing(PcOf(w, t).client)])
    case TakeOther(_) =>
      w.(mutex := None, at := w.at[t := Retrying(PcOf(w, t).client, w.published)], decided := w.decided[t := |w.log|])
    case Close(_) =>
      var c := PcOf(w, t).client;
      w.(closed := w.closed + [c], at := w.at[t := Redialling(c)])
    case Redial(_, ok) =>
      var dialling := w.(mutex := None, dials := w.dials[t := DialsOf(w, t) + 1]);
      if ok then
        dialling.(published := Some(w.dialled), dialled := w.dialled + 1,
                  at := w.at[t := Retrying(PcOf(w, t).client, Some(w.dialled))],
                  log := w.log + [Published(t)], decided := w.decided[t := |w.log| + 1])
      else
        dialling.(published := None, log := w.log + [RedialFailed(t)], at := w.at[t := Done])
    case AnswerRetry(_) => w.(at := w.at[t := Done])
  }

  // ---------------------------------------------------------------- what every state keeps

  function Open(w: World): set<Client> {
    set c | 0 <= c < w.dialled && c !in w.closed
  }

  predicate Distinct(s: seq<Client>) {
    forall i, j :: 0 <= i < j < |s| ==> s[i] != s[j]
  }

  /** A client waiting to be redialled is published and closed; otherwise the published one alone is open. */
  ghost predicate ClientsInv(w: World) {
    && Distinct(w.closed)
    && (forall c :: c in w.closed ==> c < w.dialled)
    && (w.published.Some? ==> w.published.value < w.dialled)
    && (if w.mutex.Some? && PcOf(w, w.mutex.value).Redialling? then
          w.published == Some(PcOf(w, w.mutex.value).client) && Open(w) == {}
        else
          Open(w) == if w.published.Some? then {w.published.value} else {})
  }

  predicate Inside(pc: Pc) { pc.Checking? || pc.Reviewing? || pc.Redialling? }

  /** The mutex is held by exactly the lookup that stands inside a critical section. */
  ghost predicate MutexInv(w: World) {
    forall t: Lookup :: Inside(PcOf(w, t)) <==> w.mutex == Some(t)
  }

  /** This much of the log ends with a failed redial. */
  predicate EndsFailed(log: seq<Event>, n: nat) {
    0 < n <= |log| && log[n - 1].RedialFailed?
  }

  /** How many clients were published by then; the last of them has that number less one. */
  function Publications(log: seq<Event>): nat {
    if log == [] then 0
    else Publications(log[..|log| - 1]) + if log[|log| - 1].Published? then 1 else 0
  }

  /** The client published last by the time the log was this long. */
  predicate LastBy(log: seq<Event>, n: nat, c: Client) {
    n <= |log| && Publications(log[..n]) == c + 1
  }

  /** There is no published client before the first, and right after a failed redial; otherwise it is the last. */
  predicate LogInv(w: World) {
    && (w.published.None? <==> w.log == [] || EndsFailed(w.log, |w.log|))
    && w.dialled == Publications(w.log)
    && (w.published.Some? ==> w.published.value + 1 == w.dialled)
  }

  predicate LookupInv(w: World, t: Lookup) {
    match PcOf(w, t)
    case Idle => DialsOf(w, t) == 0 && RedialFailed(t) !in w.log
    case Checking => DialsOf(w, t) == 0 && RedialFailed(t) !in w.log
    case Using(c) => Took(w, t, c)
    case Failed(c) => Took(w, t, c)
    case Reviewing(c) => Took(w, t, c)
    case Redialling(c) => Took(w, t, c)
    case Retrying(c, next) =>
      && DialsOf(w, t) <= 2 && RedialFailed(t) !in w.log && next != Some(c)
      && Since(w, t) && SinceOf(w, t) <= DecidedOf(w, t) <= |w.log|
      && (next == None <==> EndsFailed(w.log, DecidedOf(w, t)))
      && (next.Some? ==> LastBy(w.log, DecidedOf(w, t), next.value))
    case Done => DialsOf(w, t) <= 2
  }

  /** The lookup took a client right after one was published. */
  predicate Since(w: World, t: Lookup) {
    0 < SinceOf(w, t) <= |w.log| && !EndsFailed(w.log, SinceOf(w, t))
  }

  predicate Took(w: World, t: Lookup, c: Client) {
    && DialsOf(w, t) <= 1 && RedialFailed(t) !in w.log && c < w.dialled && Since(w, t)
    && LastBy(w.log, SinceOf(w, t), c)
  }

  ghost predicate Inv(w: World) {
    ClientsInv(w) && MutexInv(w) && LogInv(w) && forall t :: LookupInv(w, t)
  }

  const INITIAL := World(None, None, 0, [], map[], map[], [], map[], map[])

  lemma InitialInv()
    ensures Inv(INITIAL)
  {
    assert Open(INITIAL) == {};
  }

  lemma OpenAfterDial(w: World, w': World)
    requires w'.dialled == w.dialled + 1 && w'.closed == w.closed && forall c :: c in w.closed ==> c < w.dialled
    ensures Open(w') == Open(w) + {w.dialled}
  {
  }

  lemma OpenAfterClose(w: World, w': World, c: Client)
    requires w'.dialled == w.dialled && w'.closed == w.closed + [c]
    ensures Open(w') == Open(w) - {c}
  {
  }

  lemma StepKeepsClients(w: World, s: Step)
    requires Inv(w) && Enabled(w, s)
    ensures ClientsInv(Next(w, s))
  {
    var w' := Next(w, s);
    assert LookupInv(w, s.t);
    match s
    case Dial(t, ok) => if ok { OpenAfterDial(w, w'); } else { assert Open(w') == Open(w); }
    case Redial(t, ok) =>
      assert w.mutex == Some(t);
      if ok { OpenAfterDial(w, w'); } else { assert Open(w') == Open(w); }
    case Close(t) =>
      assert w.mutex == Some(t);
      OpenAfterClose(w, w', PcOf(w, t).client);
      assert PcOf(w, t).client in Open(w);
    case _ =>
      assert Open(w') == Open(w);
  }

  lemma StepKeepsMutex(w: World, s: Step)
    requires Inv(w) && Enabled(w, s)
    ensures MutexInv(Next(w, s))
  {
    var w' := Next(w, s);
    forall t ensures PcOf(w', t) == if t == s.t then PcOf(w', s.t) else PcOf(w, t) {}
  }

  lemma StepKeepsOthers(w: World, s: Step, t: Lookup)
    requires Inv(w) && Enabled(w, s) && t != s.t
    ensures LookupInv(Next(w, s), t)
  {
    assert LookupInv(w, t);
    OthersUntouched(w, s, t);
    LogGrows(w, s, SinceOf(w, t));
    LogGrows(w, s, DecidedOf(w, t));
  }

  lemma OthersUntouched(w: World, s: Step, t: Lookup)
    requires Enabled(w, s) && t != s.t
    ensures var w' := Next(w, s);
            && PcOf(w', t) == PcOf(w, t) && DialsOf(w', t) == DialsOf(w, t)
            && SinceOf(w', t) == SinceOf(w, t) && DecidedOf(w', t) == DecidedOf(w, t)
            && w.dialled <= w'.dialled && (RedialFailed(t) in w'.log ==> RedialFailed(t) in w.log)
  {
  }

  lemma LogGrows(w: World, s: Step, n: nat)
    requires Enabled(w, s)
    ensures |w.log| <= |Next(w, s).log|
    ensures n <= |w.log| ==> (EndsFailed(w.log, n) <==> EndsFailed(Next(w, s).log, n))
    ensures forall c :: LastBy(w.log, n, c) ==> LastBy(Next(w, s).log, n, c)
  {
    if n <= |w.log| { assert Next(w, s).log[..n] == w.log[..n]; }
  }

  lemma LogNow(log: seq<Event>, e: Event)
    ensures log[..|log|] == log && (log + [e])[..|log| + 1] == log + [e]
    ensures Publications(log + [e]) == Publications(log) + if e.Published? then 1 else 0
  {
    assert (log + [e])[..|log|] == log;
  }

  lemma StepKeepsLog(w: World, s: Step)
    requires Inv(w) && Enabled(w, s)
    ensures LogInv(Next(w, s))
  {
    assert LookupInv(w, s.t);
    LogNow(w.log, Published(s.t));
    LogNow(w.log, RedialFailed(s.t));
  }

  lemma TakingKeepsOwn(w: World, s: Step)
    requires Inv(w) && Enabled(w, s) && (s.Start? || s.Take? || s.Dial?)
    ensures LookupInv(Next(w, s), s.t)
  {
    assert LookupInv(w, s.t);
    LogNow(w.log, Published(s.t));
  }

  lemma CallingKeepsOwn(w: World, s: Step)
    requires Inv(w) && Enabled(w, s) && (s.Answer? || s.Relock? || s.Close? || s.AnswerRetry?)
    ensures LookupInv(Next(w, s), s.t)
  {
    assert LookupInv(w, s.t);
  }

  lemma RedialKeepsOwn(w: World, s: Step)
    requires Inv(w) && Enabled(w, s) && (s.TakeOther? || s.Redial?)
    ensures LookupInv(Next(w, s), s.t)
  {
    assert LookupInv(w, s.t);
    LogNow(w.log, Published(s.t));
    LogGrows(w, s, SinceOf(w, s.t));
  }

  lemma StepKeepsOwn(w: World, s: Step)
    requires Inv(w) && Enabled(w, s)
    ensures LookupInv(Next(w, s), s.t)
  {
    if s.Start? || s.Take? || s.Dial? {
      TakingKeepsOwn(w, s);
    } else if s.TakeOther? || s.Redial? {
      RedialKeepsOwn(w, s);
    } else {
      CallingKeepsOwn(w, s);
    }
  }

  lemma StepKeepsInv(w: World, s: Step)
    requires Inv(w) && Enabled(w, s)
    ensures Inv(Next(w, s))
  {
    StepKeepsClients(w, s);
    StepKeepsMutex(w, s);
    StepKeepsLog(w, s);
    StepKeepsOwn(w, s);
    forall t | t != s.t ensures LookupInv(Next(w, s), t) { StepKeepsOthers(w, s, t); }
  }

  // ---------------------------------------------------------------- every interleaving

  predicate Possible(w: World, steps: seq<Step>)
    decreases steps
  {
    steps == [] || (Enabled(w, steps[0]) && Possible(Next(w, steps[0]), steps[1..]))
  }

  function Run(w: World, steps: seq<Step>): World
    requires Possible(w, steps)
    decreases steps
  {
    if steps == [] then w else Run(Next(w, steps[0]), steps[1..])
  }

  lemma {:induction false} RunKeepsInv(w: World, steps: seq<Step>)
    requires Inv(w) && Possible(w, steps)
    ensures Inv(Run(w, steps))
    decreases steps
  {
    if steps != [] {
      StepKeepsInv(w, steps[0]);
      RunKeepsInv(Next(w, steps[0]), steps[1..]);
    }
  }

  /**
   * Of all that happened to the shared client since this lookup took it, the last thing before it
   * settled what to retry with was another lookup's failed redial.
   */
  predicate LeftWithout(w: World, t: Lookup) {
    var n := DecidedOf(w, t);
    SinceOf(w, t) < n <= |w.log| && w.log[n - 1].RedialFailed? && w.log[n - 1].t != t
  }

  /** A client is open exactly while it is published and nobody is about to redial it. */
  predicate InService(w: World, c: Client) {
    w.published == Some(c) && !(w.mutex.Some? && PcOf(w, w.mutex.value) == Redialling(c))
  }

  /**
   * After any interleaving of any lookups: with the mutex free the open clients are the published one
   * or none; no client was closed twice; no lookup dialled more than twice; every call is to the
   * client published last when the lookup took it; no retry uses the client that failed; a retry has
   * no client if and only if another lookup's failed redial left none when it looked; and a lookup
   * calls a client that is closed already if and only if that is no longer the published one, or is
   * about to be redialled.
   */
  lemma EveryInterleaving(steps: seq<Step>, t: Lookup)
    requires Possible(INITIAL, steps)
    ensures var w := Run(INITIAL, steps);
            && (w.mutex.None? ==> Open(w) == if w.published.Some? then {w.published.value} else {})
            && Distinct(w.closed)
            && DialsOf(w, t) <= 2
            && (PcOf(w, t).Using? ==> LastBy(w.log, SinceOf(w, t), PcOf(w, t).client))
            && (PcOf(w, t).Retrying? && PcOf(w, t).next.Some? ==>
                  LastBy(w.log, DecidedOf(w, t), PcOf(w, t).next.value))
            && (PcOf(w, t).Retrying? ==> PcOf(w, t).next != Some(PcOf(w, t).client))
            && (PcOf(w, t).Retrying? ==> (PcOf(w, t).next.None? <==> LeftWithout(w, t)))
            && (PcOf(w, t).Using? ==> (PcOf(w, t).client in w.closed <==> !InService(w, PcOf(w, t).client)))
  {
    InitialInv();
    RunKeepsInv(INITIAL, steps);
    var w := Run(INITIAL, steps);
    assert LookupInv(w, t);
    if PcOf(w, t).Retrying? && PcOf(w, t).next.None? {
      var last := w.log[DecidedOf(w, t) - 1];
      assert last in w.log;
    }
    if PcOf(w, t).Using? {
      var c := PcOf(w, t).client;
      assert c in Open(w) <==> c !in w.closed;
    }
  }

  // ---------------------------------------------------------------- how a lookup goes

  /** How far a lookup has come. */
  function Rank(pc: Pc): nat {
    match pc
    case Idle => 0
    case Checking => 1
    case Using(_) => 2
    case Failed(_) => 3
    case Reviewing(_) => 4
    case Redialling(_) => 5
    case Retrying(_, _) => 6
    case Done => 7
  }

  function StepsOf(steps: seq<Step>, t: Lookup): nat {
    if steps == [] then 0 else (if steps[0].t == t then 1 else 0) + StepsOf(steps[1..], t)
  }

  /** Every step takes its lookup further, so no lookup takes more than seven. */
  lemma {:induction false} StepsAdvance(w: World, steps: seq<Step>, t: Lookup)
    requires Possible(w, steps)
    ensures Rank(PcOf(w, t)) + StepsOf(steps, t) <= Rank(PcOf(Run(w, steps), t)) <= 7
    decreases steps
  {
    if steps != [] {
      if steps[0].t != t { OthersUntouched(w, steps[0], t); }
      StepsAdvance(Next(w, steps[0]), steps[1..], t);
    }
  }

  lemma EveryLookupEnds(steps: seq<Step>, t: Lookup)
    requires Possible(INITIAL, steps)
    ensures StepsOf(steps, t) <= 7 && (StepsOf(steps, t) == 7 ==> PcOf(Run(INITIAL, steps), t) == Done)
  {
    StepsAdvance(INITIAL, steps, t);
    var pc := PcOf(Run(INITIAL, steps), t);
    assert Rank(pc) == 7 ==> pc == Done;
  }

  /** Nobody waits but for the mutex, whose holder never waits; and every call and dial may turn out either way. */
  lemma NeverStuck(steps: seq<Step>, t: Lookup, ok: bool) returns (s: Step)
    requires Possible(INITIAL, steps) && PcOf(Run(INITIAL, steps), t) != Done
    requires Run(INITIAL, steps).mutex.None? || Run(INITIAL, steps).mutex == Some(t)
    ensures Enabled(Run(INITIAL, steps), s) && s.t == t
    ensures s.Dial? || s.Answer? || s.Redial? ==> s.ok == ok
  {
    var w := Run(INITIAL, steps);
    InitialInv();
    RunKeepsInv(INITIAL, steps);
    assert Inside(PcOf(w, t)) <==> w.mutex == Some(t);
    s := match PcOf(w, t)
      case Idle => Start(t)
      case Checking => if w.published.Some? then Take(t) else Dial(t, ok)
      case Using(_) => Answer(t, ok)
      case Failed(_) => Relock(t)
      case Reviewing(c) => if w.published == Some(c) then Close(t) else TakeOther(t)
      case Redialling(_) => Redial(t, ok)
      case Retrying(_, _) => AnswerRetry(t)
      case Done => AnswerRetry(t);
  }

  lemma HolderInside(steps: seq<Step>, t: Lookup)
    requires Possible(INITIAL, steps) && Run(INITIAL, steps).mutex == Some(t)
    ensures PcOf(Run(INITIAL, steps), t) != Done
  {
    InitialInv();
    RunKeepsInv(INITIAL, steps);
    assert Inside(PcOf(Run(INITIAL, steps), t));
  }

  lemma {:induction false} RunPrefix(w: World, steps: seq<Step>, i: nat)
    requires Possible(w, steps) && i < |steps|
    ensures Possible(w, steps[..i]) && Enabled(Run(w, steps[..i]), steps[i])
    ensures Possible(Next(Run(w, steps[..i]), steps[i]), steps[i + 1..])
    ensures Run(w, steps) == Run(Next(Run(w, steps[..i]), steps[i]), steps[i + 1..])
    decreases i
  {
    if i > 0 {
      RunPrefix(Next(w, steps[0]), steps[1..], i - 1);
      assert steps[..i][1..] == steps[1..][..i - 1] && steps[1..][i..] == steps[i + 1..];
    }
  }

  /** A lookup is past its first call's failure. */
  predicate PastFailure(pc: Pc) { pc.Failed? || pc.Reviewing? || pc.Redialling? || pc.Retrying? }

  lemma {:induction false} PastOnlyByFailure(w: World, steps: seq<Step>, t: Lookup)
    requires Possible(w, steps) && !PastFailure(PcOf(w, t)) && PastFailure(PcOf(Run(w, steps), t))
    ensures exists j :: 0 <= j < |steps| && steps[j] == Answer(t, false)
    decreases steps
  {
    var s, w' := steps[0], Next(w, steps[0]);
    if PastFailure(PcOf(w', t)) {
      if s.t != t { OthersUntouched(w, s, t); }
      assert steps[0] == Answer(t, false);
    } else {
      PastOnlyByFailure(w', steps[1..], t);
      var j :| 0 <= j < |steps[1..]| && steps[1..][j] == Answer(t, false);
      assert steps[j + 1] == Answer(t, false);
    }
  }

  /** Whatever a lookup does to the shared client again, or calls again, its own first call has failed before. */
  lemma OnlyAfterFailure(steps: seq<Step>, i: nat)
    requires Possible(INITIAL, steps) && i < |steps|
    requires steps[i].Relock? || steps[i].TakeOther? || steps[i].Close? || steps[i].Redial? || steps[i].AnswerRetry?
    ensures exists j :: 0 <= j < i && steps[j] == Answer(steps[i].t, false)
  {
    RunPrefix(INITIAL, steps, i);
    PastOnlyByFailure(INITIAL, steps[..i], steps[i].t);
    var j :| 0 <= j < |steps[..i]| && steps[..i][j] == Answer(steps[i].t, false);
    assert steps[j] == Answer(steps[i].t, false);
  }

  lemma {:induction false} DialsWhenDone(w: World, steps: seq<Step>, t: Lookup)
    requires Possible(w, steps) && PcOf(w, t) == Done
    ensures PcOf(Run(w, steps), t) == Done && DialsOf(Run(w, steps), t) == DialsOf(w, t)
    decreases steps
  {
    if steps != [] {
      OthersUntouched(w, steps[0], t);
      DialsWhenDone(Next(w, steps[0]), steps[1..], t);
    }
  }

  /**
   * A call that succeeds ends its lookup and leaves everything shared as it was: from then on the
   * lookup is done, and it has dialled at most once.
   */
  lemma SuccessEnds(steps: seq<Step>, i: nat, t: Lookup)
    requires Possible(INITIAL, steps) && i < |steps| && steps[i] == Answer(t, true)
    ensures Possible(INITIAL, steps[..i]) && Possible(INITIAL, steps[..i + 1])
    ensures var w, w' := Run(INITIAL, steps[..i]), Run(INITIAL, steps[..i + 1]);
            && w'.mutex == w.mutex && w'.published == w.published && w'.closed == w.closed
            && w'.dialled == w.dialled && PcOf(w', t) == Done
    ensures PcOf(Run(INITIAL, steps), t) == Done && DialsOf(Run(INITIAL, steps), t) <= 1
  {
    RunPrefix(INITIAL, steps, i);
    var w := Run(INITIAL, steps[..i]);
    InitialInv();
    RunKeepsInv(INITIAL, steps[..i]);
    assert LookupInv(w, t);
    RunSnoc(INITIAL, steps[..i], steps[i]);
    assert steps[..i + 1] == steps[..i] + [steps[i]];
    DialsWhenDone(Next(w, steps[i]), steps[i + 1..], t);
  }

  lemma {:induction false} RunSnoc(w: World, steps: seq<Step>, s: Step)
    requires Possible(w, steps) && Enabled(Run(w, steps), s)
    ensures Possible(w, steps + [s]) && Run(w, steps + [s]) == Next(Run(w, steps), s)
    decreases steps
  {
    if steps == [] {
      assert steps + [s] == [s] && [s][1..] == [];
    } else {
      RunSnoc(Next(w, steps[0]), steps[1..], s);
      assert (steps + [s])[1..] == steps[1..] + [s];
    }
  }

  /** Between two steps of a lookup it only gets further. */
  lemma LaterIsFurther(steps: seq<Step>, j: nat, i: nat, t: Lookup)
    requires Possible(INITIAL, steps) && j < i < |steps| && steps[j].t == t
    ensures Possible(INITIAL, steps[..j]) && Possible(INITIAL, steps[..i])
    ensures Enabled(Run(INITIAL, steps[..j]), steps[j]) && Enabled(Run(INITIAL, steps[..i]), steps[i])
    ensures Rank(PcOf(Run(INITIAL, steps[..j]), t)) < Rank(PcOf(Run(INITIAL, steps[..i]), t))
  {
    RunPrefix(INITIAL, steps, i);
    RunPrefix(INITIAL, steps[..i], j);
    assert steps[..i][..j] == steps[..j] && steps[..i][j] == steps[j];
    var w := Run(INITIAL, steps[..j]);
    StepsAdvance(w, [steps[j]], t);
    StepsAdvance(Next(w, steps[j]), steps[..i][j + 1..], t);
    assert Possible(Next(w, steps[j]), []) && [steps[j]][1..] == [];
    assert Run(w, [steps[j]]) == Next(w, steps[j]);
    assert StepsOf([steps[j]], t) == 1;
  }

  /** A lookup whose first call succeeded closed and redialled nothing, before or after. */
  lemma SuccessClosesNothing(steps: seq<Step>, i: nat, t: Lookup, j: nat)
    requires Possible(INITIAL, steps) && i < |steps| && j < |steps| && steps[i] == Answer(t, true) && steps[j].t == t
    ensures steps[j].Start? || steps[j].Take? || steps[j].Dial? || j == i
  {
    if j < i {
      LaterIsFurther(steps, j, i, t);
    } else if i < j {
      DoneTakesNoStep(steps, i, t, j);
    }
  }

  lemma DoneTakesNoStep(steps: seq<Step>, i: nat, t: Lookup, j: nat)
    requires Possible(INITIAL, steps) && i < j < |steps| && steps[i] == Answer(t, true)
    ensures steps[j].t != t
  {
    SuccessEnds(steps[..j], i, t) by {
      RunPrefix(INITIAL, steps, j);
    }
    RunPrefix(INITIAL, steps, j);
  }

  lemma RunCons(w: World, s: Step, rest: seq<Step>)
    requires Enabled(w, s) && Possible(Next(w, s), rest)
    ensures Possible(w, [s] + rest) && Run(w, [s] + rest) == Run(Next(w, s), rest)
  {
    assert ([s] + rest)[1..] == rest;
  }

  /** Two lookups share a client and both fail; one redials in vain, and the other retries without a client. */
  lemma RetryWithoutClient() returns (steps: seq<Step>)
    ensures Possible(INITIAL, steps)
    ensures PcOf(Run(INITIAL, steps), 1) == Retrying(0, None)
  {
    var w1 := Next(INITIAL, Start(0));
    var w2 := Next(w1, Dial(0, true));
    var w3 := Next(w2, Start(1));
    var w4 := Next(w3, Take(1));
    var w5 := Next(w4, Answer(0, false));
    var w6 := Next(w5, Answer(1, false));
    var w7 := Next(w6, Relock(0));
    var w8 := Next(w7, Close(0));
    var w9 := Next(w8, Redial(0, false));
    var w10 := Next(w9, Relock(1));
    var w11 := Next(w10, TakeOther(1));
    assert PcOf(w11, 1) == Retrying(0, None);
    RunCons(w10, TakeOther(1), []);
    steps := [TakeOther(1)] + [];
    RunCons(w9, Relock(1), steps);
    steps := [Relock(1)] + steps;
    RunCons(w8, Redial(0, false), steps);
    steps := [Redial(0, false)] + steps;
    RunCons(w7, Close(0), steps);
    steps := [Close(0)] + steps;
    RunCons(w6, Relock(0), steps);
    steps := [Relock(0)] + steps;
    RunCons(w5, Answer(1, false), steps);
    steps := [Answer(1, false)] + steps;
    RunCons(w4, Answer(0, false), steps);
    steps := [Answer(0, false)] + steps;
    RunCons(w3, Take(1), steps);
    steps := [Take(1)] + steps;
    RunCons(w2, Start(1), steps);
    steps := [Start(1)] + steps;
    RunCons(w1, Dial(0, true), steps);
    steps := [Dial(0, true)] + steps;
    RunCons(INITIAL, Start(0), steps);
    steps := [Start(0)] + steps;
  }
}
