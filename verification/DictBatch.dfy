/** Transaction batches on a dictionary: the handler's loop and two drivers' commits. */
module DictBatch {
  import opened Basics
  import opened Numbers

  /** A stored row; `expires` is zero for one that does not. */
  datatype Row = Row(values: seq<string>, expires: nat)

  type Rows = map<string, Row>

  datatype Op = Set(key: string, value: string) | Unset(key: string) | Inc(key: string, delta: Int64)

  // ---------------------------------------------------------------- applying operations

  datatype Applied = Done(rows: Rows) | NotFound | NotANumber

  function Increment(row: Row, delta: Int64, expires: nat): Row
    requires row.values != [] && ParseInt(row.values[0]).Some?
  {
    Row([Format(Wrap(ParseInt(row.values[0]).value + delta))], if expires > 0 then expires else row.expires)
  }

  function ApplyOne(rows: Rows, op: Op, expires: nat): Applied {
    match op
    case Set(k, v) => Done(rows[k := Row([v], expires)])
    case Unset(k) => Done(rows - {k})
    case Inc(k, delta) =>
      if k !in rows || rows[k].values == [] then NotFound
      else if ParseInt(rows[k].values[0]).None? then NotANumber
      else Done(rows[k := Increment(rows[k], delta, expires)])
  }

  /** Left to right, stopping at the first operation that cannot be applied. */
  function ApplyAll(rows: Rows, ops: seq<Op>, expires: nat): Applied
    decreases |ops|
  {
    if ops == [] then Done(rows)
    else
      var first := ApplyOne(rows, ops[0], expires);
      if first.Done? then ApplyAll(first.rows, ops[1..], expires) else first
  }

  /** The rows a driver that writes as it goes has reached when it stops. */
  function Reached(rows: Rows, ops: seq<Op>, expires: nat): Rows
    decreases |ops|
  {
    if ops == [] then rows
    else
      var first := ApplyOne(rows, ops[0], expires);
      if first.Done? then Reached(first.rows, ops[1..], expires) else rows
  }

  lemma {:induction false} ReachedIsApplied(rows: Rows, ops: seq<Op>, expires: nat)
    requires ApplyAll(rows, ops, expires).Done?
    ensures Reached(rows, ops, expires) == ApplyAll(rows, ops, expires).rows
    decreases |ops|
  {
    if ops != [] {
      ReachedIsApplied(ApplyOne(rows, ops[0], expires).rows, ops[1..], expires);
    }
  }

  // ---------------------------------------------------------------- what a batch means, key by key

  function On(ops: seq<Op>, key: string): seq<Op> {
    if ops == [] then [] else (if ops[0].key == key then [ops[0]] else []) + On(ops[1..], key)
  }

  predicate SameAt(a: Rows, b: Rows, key: string) {
    (key in a <==> key in b) && (key in a ==> a[key] == b[key])
  }

  lemma ApplyOneLocal(a: Rows, b: Rows, op: Op, expires: nat, key: string)
    requires ApplyOne(a, op, expires).Done? && SameAt(a, b, key)
    ensures op.key != key ==> SameAt(ApplyOne(a, op, expires).rows, b, key)
    ensures op.key == key ==>
              && ApplyOne(b, op, expires).Done?
              && SameAt(ApplyOne(a, op, expires).rows, ApplyOne(b, op, expires).rows, key)
  {
  }

  /** What a committed batch leaves under a key is what the operations on that key alone make of it. */
  lemma {:induction false} KeysAreIndependent(a: Rows, b: Rows, ops: seq<Op>, expires: nat, key: string)
    requires ApplyAll(a, ops, expires).Done? && SameAt(a, b, key)
    ensures ApplyAll(b, On(ops, key), expires).Done?
    ensures SameAt(ApplyAll(a, ops, expires).rows, ApplyAll(b, On(ops, key), expires).rows, key)
    decreases |ops|
  {
    if ops != [] {
      var a' := ApplyOne(a, ops[0], expires).rows;
      ApplyOneLocal(a, b, ops[0], expires, key);
      if ops[0].key == key {
        var mine := On(ops, key);
        assert mine[0] == ops[0] && mine[1..] == On(ops[1..], key);
        KeysAreIndependent(a', ApplyOne(b, ops[0], expires).rows, ops[1..], expires, key);
      } else {
        assert On(ops, key) == On(ops[1..], key);
        KeysAreIndependent(a', b, ops[1..], expires, key);
      }
    }
  }

  /** An increment leaves a number one reads back as the 64-bit sum. */
  lemma IncrementReadsBack(rows: Rows, key: string, delta: Int64, expires: nat)
    requires ApplyOne(rows, Inc(key, delta), expires).Done?
    ensures var before, after := ParseInt(rows[key].values[0]), ApplyOne(rows, Inc(key, delta), expires).rows[key];
            && |after.values| == 1 && ParseInt(after.values[0]) == Some(Wrap(before.value + delta))
            && InRange(Wrap(before.value + delta))
            && (InRange(before.value + delta) ==> Wrap(before.value + delta) == before.value + delta)
  {
    var v: Int64 := ParseInt(rows[key].values[0]).value;
    assert InRange(v) && InRange(delta);
    FormatParses(Wrap(v + delta));
  }

  // ---------------------------------------------------------------- the two commits

  datatype Result = Ok | Missing | Failed

  class Dict {
    const inPlace: bool
    var rows: Rows
    var closed: bool

    constructor (inPlace: bool, rows: Rows)
      ensures this.inPlace == inPlace && this.rows == rows && !closed
    {
      this.inPlace, this.rows, closed := inPlace, rows, false;
    }

    /** The in-memory driver: each operation is written as it is reached. */
    method CommitInPlace(ops: seq<Op>, expires: nat) returns (result: Result)
      modifies `rows
      ensures closed ==> result == Failed && rows == old(rows)
      ensures !closed ==> rows == Reached(old(rows), ops, expires)
      ensures !closed ==> (result == Ok <==> ApplyAll(old(rows), ops, expires).Done?)
      ensures !closed ==> (result == Missing <==> ApplyAll(old(rows), ops, expires).NotFound?)
    {
      if closed {
        return Failed;
      }
      assert ops[0..] == ops;
      for i := 0 to |ops|
        invariant Reached(old(rows), ops, expires) == Reached(rows, ops[i..], expires)
        invariant ApplyAll(old(rows), ops, expires) == ApplyAll(rows, ops[i..], expires)
      {
        assert ops[i..][1..] == ops[i + 1..];
        var step := ApplyOne(rows, ops[i], expires);
        match step
        case Done(next) => rows := next;
        case NotFound => return Missing;
        case NotANumber => return Failed;
      }
      result := Ok;
    }

    /**
     * The file driver: the rows are those of the file, which is read first if it has not been yet, and
     * the operations go to a copy that replaces them only once it is on disk.
     */
    method CommitCopy(ops: seq<Op>, expires: nat, loads: bool, flushed: bool) returns (result: Result)
      modifies `rows
      ensures result == Ok <==> !closed && loads && ApplyAll(old(rows), ops, expires).Done? && flushed
      ensures result == Ok ==> rows == ApplyAll(old(rows), ops, expires).rows
      ensures result != Ok ==> rows == old(rows)
      ensures closed || !loads ==> result == Failed
      ensures !closed && loads ==> (result == Missing <==> ApplyAll(old(rows), ops, expires).NotFound?)
    {
      if closed {
        return Failed;
      }
      if !loads {
        return Failed;
      }
      var snapshot := rows;
      assert ops[0..] == ops;
      for i := 0 to |ops|
        invariant rows == old(rows)
        invariant ApplyAll(old(rows), ops, expires) == ApplyAll(snapshot, ops[i..], expires)
      {
        assert ops[i..][1..] == ops[i + 1..];
        var step := ApplyOne(snapshot, ops[i], expires);
        match step
        case Done(next) => snapshot := next;
        case NotFound => return Missing;
        case NotANumber => return Failed;
      }
      var previous := rows;
      rows := snapshot;
      if !flushed {
        rows := previous;
        return Failed;
      }
      result := Ok;
    }
  }

  // ---------------------------------------------------------------- when the in-place commit is atomic

  /** The operations before the first one that cannot be applied. */
  function Prefix(rows: Rows, ops: seq<Op>, expires: nat): seq<Op>
    decreases |ops|
  {
    if ops == [] || !ApplyOne(rows, ops[0], expires).Done? then []
    else [ops[0]] + Prefix(ApplyOne(rows, ops[0], expires).rows, ops[1..], expires)
  }

  lemma SameEverywhere(a: Rows, b: Rows)
    requires forall k :: SameAt(a, b, k)
    ensures a == b
  {
    forall k ensures k in a <==> k in b { assert SameAt(a, b, k); }
    forall k | k in a ensures a[k] == b[k] { assert SameAt(a, b, k); }
  }

  lemma {:induction false} ReachedIsPrefixApplied(rows: Rows, ops: seq<Op>, expires: nat)
    ensures ApplyAll(rows, Prefix(rows, ops, expires), expires) == Done(Reached(rows, ops, expires))
    decreases |ops|
  {
    if ops != [] && ApplyOne(rows, ops[0], expires).Done? {
      var prefix := Prefix(rows, ops, expires);
      assert prefix[1..] == Prefix(ApplyOne(rows, ops[0], expires).rows, ops[1..], expires);
      ReachedIsPrefixApplied(ApplyOne(rows, ops[0], expires).rows, ops[1..], expires);
    }
  }

  function RowAt(rows: Rows, key: string): Option<Row> {
    if key in rows then Some(rows[key]) else None
  }

  /** The increments at the end of a list of operations, behind the last set or unset. */
  function Increments(ops: seq<Op>): seq<Op> {
    if ops == [] || !ops[|ops| - 1].Inc? then [] else Increments(ops[..|ops| - 1]) + [ops[|ops| - 1]]
  }

  function Sum(ops: seq<Op>): int {
    if ops == [] then 0
    else Sum(ops[..|ops| - 1]) + if ops[|ops| - 1].Inc? then ops[|ops| - 1].delta else 0
  }

  /** What the last set or unset leaves; what was there, if there is none. */
  function Start(before: Option<Row>, ops: seq<Op>, expires: nat): Option<Row> {
    if ops == [] then before
    else
      match ops[|ops| - 1]
      case Set(_, v) => Some(Row([v], expires))
      case Unset(_) => None
      case Inc(_, _) => Start(before, ops[..|ops| - 1], expires)
  }

  predicate Counter(row: Option<Row>) {
    row.Some? && row.value.values != [] && ParseInt(row.value.values[0]).Some?
  }

  /** The net effect of a key's operations: the last set or unset, and the sum of the increments behind it. */
  function Net(before: Option<Row>, ops: seq<Op>, expires: nat): Option<Row> {
    var start := Start(before, ops, expires);
    if Counter(start) then Some(Counted(start.value, Increments(ops), expires)) else start
  }

  lemma {:induction false} ApplyLast(rows: Rows, ops: seq<Op>, expires: nat)
    requires ops != [] && ApplyAll(rows, ops, expires).Done?
    ensures var front := ApplyAll(rows, ops[..|ops| - 1], expires);
            front.Done? && ApplyAll(rows, ops, expires) == ApplyOne(front.rows, ops[|ops| - 1], expires)
    decreases |ops|
  {
    if |ops| > 1 {
      assert ops[..|ops| - 1][1..] == ops[1..][..|ops[1..]| - 1];
      ApplyLast(ApplyOne(rows, ops[0], expires).rows, ops[1..], expires);
    }
  }

  lemma SumLast(ops: seq<Op>, op: Op)
    requires op.Inc?
    ensures Sum(ops + [op]) == Sum(ops) + op.delta
  {
    assert (ops + [op])[..|ops|] == ops;
  }

  function Expiry(expires: nat, kept: nat): nat {
    if expires > 0 then expires else kept
  }

  lemma FirstIncrement(start: Row, d: Int64, expires: nat)
    requires Counter(Some(start))
    ensures Increment(start, d, expires)
         == Row([Format(Residue(ParseInt(start.values[0]).value + d))], Expiry(expires, start.expires))
  {
    WrapIsResidue(ParseInt(start.values[0]).value, d);
  }

  lemma LaterIncrement(n: int, d: Int64, kept: nat, expires: nat)
    ensures Counter(Some(Row([Format(Residue(n))], kept)))
    ensures Increment(Row([Format(Residue(n))], kept), d, expires)
         == Row([Format(Residue(n + d))], Expiry(expires, kept))
  {
    FormatParses(Residue(n));
    WrapIsResidue(Residue(n), d);
    ResidueAdds(n, d);
  }

  /** A counter after increments, if there are any. */
  function Counted(start: Row, incs: seq<Op>, expires: nat): Row
    requires Counter(Some(start))
  {
    if incs == [] then start
    else Row([Format(Residue(ParseInt(start.values[0]).value + Sum(incs)))], Expiry(expires, start.expires))
  }

  /** One more increment on top of a net effect. */
  lemma NetIncrement(start: Row, incs: seq<Op>, op: Op, expires: nat)
    requires op.Inc? && Counter(Some(start))
    ensures Counter(Some(Counted(start, incs, expires)))
    ensures Increment(Counted(start, incs, expires), op.delta, expires) == Counted(start, incs + [op], expires)
  {
    SumLast(incs, op);
    if incs == [] {
      FirstIncrement(start, op.delta, expires);
      assert Sum(incs) == 0;
    } else {
      LaterIncrement(ParseInt(start.values[0]).value + Sum(incs), op.delta, Expiry(expires, start.expires), expires);
    }
  }

  /** What a key's own operations, all applied, leave under it. */
  lemma {:induction false} NetIs(rows: Rows, ops: seq<Op>, expires: nat, key: string)
    requires ApplyAll(rows, ops, expires).Done? && forall op :: op in ops ==> op.key == key
    ensures RowAt(ApplyAll(rows, ops, expires).rows, key) == Net(RowAt(rows, key), ops, expires)
    ensures Increments(ops) != [] ==> Counter(Start(RowAt(rows, key), ops, expires))
    decreases |ops|
  {
    if ops != [] {
      var front, last := ops[..|ops| - 1], ops[|ops| - 1];
      ApplyLast(rows, ops, expires);
      assert last in ops && forall op :: op in front ==> op in ops;
      NetIs(rows, front, expires, key);
      var reached := ApplyAll(rows, front, expires).rows;
      if last.Inc? { NetOneMore(RowAt(rows, key), front, last, expires, reached); }
    }
  }

  lemma NetOneMore(before: Option<Row>, front: seq<Op>, last: Op, expires: nat, reached: Rows)
    requires last.Inc? && ApplyOne(reached, last, expires).Done?
    requires RowAt(reached, last.key) == Net(before, front, expires)
    requires Increments(front) != [] ==> Counter(Start(before, front, expires))
    ensures Counter(Start(before, front, expires))
    ensures Increment(reached[last.key], last.delta, expires)
         == Counted(Start(before, front, expires).value, Increments(front) + [last], expires)
  {
    NetIncrement(Start(before, front, expires).value, Increments(front), last, expires);
  }

  lemma {:induction false} ApplySnoc(rows: Rows, ops: seq<Op>, op: Op, expires: nat)
    ensures var front := ApplyAll(rows, ops, expires);
            ApplyAll(rows, ops + [op], expires) == if front.Done? then ApplyOne(front.rows, op, expires) else front
    decreases |ops|
  {
    if ops == [] {
      assert ops + [op] == [op] && [op][1..] == [];
    } else {
      assert (ops + [op])[1..] == ops[1..] + [op];
      var first := ApplyOne(rows, ops[0], expires);
      if first.Done? { ApplySnoc(first.rows, ops[1..], op, expires); }
    }
  }

  /** Of any operations, all applied: a key holds the net effect of its own. */
  lemma NetOn(rows: Rows, ops: seq<Op>, expires: nat, key: string)
    requires ApplyAll(rows, ops, expires).Done?
    ensures RowAt(ApplyAll(rows, ops, expires).rows, key) == Net(RowAt(rows, key), On(ops, key), expires)
  {
    KeysAreIndependent(rows, rows, ops, expires, key);
    forall op | op in On(ops, key) ensures op.key == key { OnKey(ops, key, op); }
    NetIs(rows, On(ops, key), expires, key);
  }

  /** What an increment finds: the net effect, on its key, of the operations before it. */
  function Found(rows: Rows, ops: seq<Op>, i: nat, expires: nat): Option<Row>
    requires i < |ops|
  {
    Net(RowAt(rows, ops[i].key), On(ops[..i], ops[i].key), expires)
  }

  predicate Applies(rows: Rows, ops: seq<Op>, i: nat, expires: nat)
    requires i < |ops|
  {
    ops[i].Inc? ==> Counter(Found(rows, ops, i, expires))
  }

  /** A batch applies exactly if every increment in it finds a number; nothing else can fail. */
  lemma {:induction false} AppliesIff(rows: Rows, ops: seq<Op>, expires: nat)
    ensures ApplyAll(rows, ops, expires).Done? <==> forall i :: 0 <= i < |ops| ==> Applies(rows, ops, i, expires)
    decreases |ops|
  {
    if ops != [] {
      var n, front, last := |ops| - 1, ops[..|ops| - 1], ops[|ops| - 1];
      assert ops == front + [last];
      AppliesIff(rows, front, expires);
      ApplySnoc(rows, front, last, expires);
      SameBefore(rows, ops, n, expires);
      assert Applies(rows, ops, n, expires)
        <==> (last.Inc? ==> Counter(Net(RowAt(rows, last.key), On(front, last.key), expires)));
      if ApplyAll(rows, front, expires).Done? {
        NetOn(rows, front, expires, last.key);
      }
    }
  }

  lemma SameBefore(rows: Rows, ops: seq<Op>, i: nat, expires: nat)
    requires i <= |ops|
    ensures forall j :: 0 <= j < i ==> (Applies(rows, ops[..i], j, expires) <==> Applies(rows, ops, j, expires))
  {
    assert forall j :: 0 <= j < i ==> ops[..i][..j] == ops[..j] && ops[..i][j] == ops[j];
  }

  /** The first that finds none decides the answer: nothing there, or something that is no number. */
  lemma FailureIs(rows: Rows, ops: seq<Op>, i: nat, expires: nat)
    requires i < |ops| && !Applies(rows, ops, i, expires)
    requires forall j :: 0 <= j < i ==> Applies(rows, ops, j, expires)
    ensures var found := Found(rows, ops, i, expires);
            ApplyAll(rows, ops, expires) == if found.None? || found.value.values == [] then NotFound else NotANumber
  {
    var front := ops[..i];
    SameBefore(rows, ops, i, expires);
    AppliesIff(rows, front, expires);
    NetOn(rows, front, expires, ops[i].key);
    ApplySnoc(rows, front, ops[i], expires);
    FailsForGood(rows, front + [ops[i]], ops[i + 1..], expires);
    assert ops == front + [ops[i]] + ops[i + 1..];
  }

  lemma {:induction false} FailsForGood(rows: Rows, a: seq<Op>, b: seq<Op>, expires: nat)
    requires !ApplyAll(rows, a, expires).Done?
    ensures ApplyAll(rows, a + b, expires) == ApplyAll(rows, a, expires)
    decreases |b|
  {
    if b == [] {
      assert a + b == a;
    } else {
      ApplySnoc(rows, a, b[0], expires);
      FailsForGood(rows, a + [b[0]], b[1..], expires);
      assert a + b == a + [b[0]] + b[1..];
    }
  }

  lemma {:induction false} OnKey(ops: seq<Op>, key: string, op: Op)
    requires op in On(ops, key)
    ensures op.key == key
  {
    if ops[0].key != key || op != ops[0] { OnKey(ops[1..], key, op); }
  }

  /**
   * On the in-place driver a refused batch leaves the rows unchanged if and only if the net effect
   * on each key of the operations before the failing one is what was there.
   */
  lemma FailedInPlaceUnchangedIff(rows: Rows, ops: seq<Op>, expires: nat)
    ensures Reached(rows, ops, expires) == rows
       <==> forall key :: Net(RowAt(rows, key), On(Prefix(rows, ops, expires), key), expires) == RowAt(rows, key)
  {
    var prefix, reached := Prefix(rows, ops, expires), Reached(rows, ops, expires);
    ReachedIsPrefixApplied(rows, ops, expires);
    forall key
      ensures RowAt(reached, key) == Net(RowAt(rows, key), On(prefix, key), expires)
    {
      KeysAreIndependent(rows, rows, prefix, expires, key);
      forall op | op in On(prefix, key) ensures op.key == key { OnKey(prefix, key, op); }
      NetIs(rows, On(prefix, key), expires, key);
    }
    if forall key :: Net(RowAt(rows, key), On(prefix, key), expires) == RowAt(rows, key) {
      forall key
        ensures SameAt(reached, rows, key)
      {
        assert RowAt(reached, key) == RowAt(rows, key);
      }
      SameEverywhere(reached, rows);
    }
  }

  /** Set one key, increment another that is absent: refused, and half applied. */
  lemma HalfAppliedInPlace()
    ensures var ops := [Set("a", "1"), Inc("b", 1)];
            && ApplyAll(map[], ops, 0) == NotFound
            && Reached(map[], ops, 0) == map["a" := Row(["1"], 0)]
  {
    var ops := [Set("a", "1"), Inc("b", 1)];
    assert ops[1..] == [Inc("b", 1)];
  }

  // ---------------------------------------------------------------- the handler

  /** One operation as it arrives. */
  datatype BatchOp = BatchOp(kind: string, key: string, value: string, delta: Int64)

  /** Lower-casing of a letter; the dotted capital I and the Kelvin sign fall on plain letters too. */
  function Lower(c: char): char {
    if 'A' <= c <= 'Z' then (c as int + 32) as char
    else if c as int == 0x130 then 'i'
    else if c as int == 0x212a then 'k'
    else c
  }

  function ToLower(s: string): string {
    seq(|s|, i requires 0 <= i < |s| => Lower(s[i]))
  }

  function Read(op: BatchOp): Option<Op> {
    var kind := ToLower(op.kind);
    if op.key == "" then None
    else if kind == "set" then Some(Set(op.key, op.value))
    else if kind == "unset" then Some(Unset(op.key))
    else if kind == "atomic-inc" then Some(Inc(op.key, op.delta))
    else None
  }

  function ReadAll(batch: seq<BatchOp>): Option<seq<Op>> {
    if batch == [] then Some([])
    else
      var front, last := ReadAll(batch[..|batch| - 1]), Read(batch[|batch| - 1]);
      if front.None? || last.None? then None else Some(front.value + [last.value])
  }

  /** How a letter of a word may be written. */
  function Variants(c: char): set<char> {
    {c}
    + (if 'a' <= c <= 'z' then {(c as int - 32) as char} else {})
    + (if c == 'i' then {0x130 as char} else if c == 'k' then {0x212a as char} else {})
  }

  predicate Spells(kind: string, word: string) {
    |kind| == |word| && forall i :: 0 <= i < |word| ==> kind[i] in Variants(word[i])
  }

  /** What an operation on the wire means: its word in any case, its key, and the value or the delta. */
  predicate Means(b: BatchOp, op: Op) {
    && b.key != "" && op.key == b.key
    && match op
       case Set(_, value) => Spells(b.kind, "set") && value == b.value
       case Unset(_) => Spells(b.kind, "unset")
       case Inc(_, delta) => Spells(b.kind, "atomic-inc") && delta == b.delta
  }

  lemma SpellsIff(kind: string, word: string)
    requires forall c :: c in word ==> 'a' <= c <= 'z' || c == '-'
    ensures ToLower(kind) == word <==> Spells(kind, word)
  {
    forall i | 0 <= i < |kind| && i < |word|
      ensures Lower(kind[i]) == word[i] <==> kind[i] in Variants(word[i])
    {
      assert word[i] in word;
      LowerIff(kind[i], word[i]);
    }
    if ToLower(kind) == word {
      assert |kind| == |word| && forall i :: 0 <= i < |word| ==> Lower(kind[i]) == ToLower(kind)[i] == word[i];
    }
  }

  lemma LowerIff(c: char, w: char)
    requires 'a' <= w <= 'z' || w == '-'
    ensures Lower(c) == w <==> c in Variants(w)
  {
  }

  lemma ReadIff(b: BatchOp, op: Op)
    ensures Read(b) == Some(op) <==> Means(b, op)
  {
    SpellsIff(b.kind, "set");
    SpellsIff(b.kind, "unset");
    SpellsIff(b.kind, "atomic-inc");
  }

  /** A batch is read as these operations exactly when it means them, one by one; otherwise it is refused. */
  lemma {:induction false} ReadAllIff(batch: seq<BatchOp>, ops: seq<Op>)
    ensures ReadAll(batch) == Some(ops)
       <==> |batch| == |ops| && forall i :: 0 <= i < |batch| ==> Means(batch[i], ops[i])
  {
    if batch != [] && ops != [] {
      var n, front, last := |batch| - 1, batch[..|batch| - 1], batch[|batch| - 1];
      ReadAllIff(front, ops[..|ops| - 1]);
      ReadIff(last, ops[|ops| - 1]);
      assert ops == ops[..|ops| - 1] + [ops[|ops| - 1]];
      if ReadAll(front).Some? && Read(last).Some? {
        var all := ReadAll(front).value + [Read(last).value];
        assert all[..|all| - 1] == ReadAll(front).value && all[|all| - 1] == Read(last).value;
      }
    }
  }

  /** A transaction: operations are buffered until it is committed or rolled back, once. */
  class Tx {
    const dict: Dict
    const expires: nat
    var ops: seq<Op>
    var done: bool
    ghost var ended: nat

    constructor (dict: Dict, expires: nat)
      ensures this.dict == dict && this.expires == expires && ops == [] && !done && ended == 0
    {
      this.dict, this.expires, ops, done, ended := dict, expires, [], false, 0;
    }

    method Add(op: Op) returns (ok: bool)
      modifies `ops
      ensures ok <==> !done
      ensures ops == if ok then old(ops) + [op] else old(ops)
    {
      ok := !done;
      if ok {
        ops := ops + [op];
      }
    }

    method Rollback()
      requires !done
      modifies this
      ensures done && ended == old(ended) + 1
    {
      done, ops, ended := true, [], ended + 1;
    }

    method Commit(loads: bool, flushed: bool) returns (result: Result)
      requires !done
      modifies this, dict`rows
      ensures done && ended == old(ended) + 1
      ensures dict.closed ==> result == Failed && dict.rows == old(dict.rows)
      ensures !dict.closed && dict.inPlace ==> dict.rows == Reached(old(dict.rows), old(ops), expires)
      ensures !dict.closed && dict.inPlace ==> (result == Ok <==> ApplyAll(old(dict.rows), old(ops), expires).Done?)
      ensures !dict.inPlace ==>
                (result == Ok
                 <==> !dict.closed && loads && ApplyAll(old(dict.rows), old(ops), expires).Done? && flushed)
      ensures !dict.inPlace && result == Ok ==> dict.rows == ApplyAll(old(dict.rows), old(ops), expires).rows
      ensures !dict.inPlace && result != Ok ==> dict.rows == old(dict.rows)
    {
      done, ended := true, ended + 1;
      if dict.inPlace {
        result := dict.CommitInPlace(ops, expires);
      } else {
        result := dict.CommitCopy(ops, expires, loads, flushed);
      }
    }
  }

  datatype Reply = BadRequest | Committed(result: Result)

  lemma {:induction false} ReadAllStops(batch: seq<BatchOp>, i: nat)
    requires i < |batch| && Read(batch[i]).None?
    ensures ReadAll(batch).None?
  {
    if i < |batch| - 1 {
      ReadAllStops(batch[..|batch| - 1], i);
    }
  }

  /**
   * The batch handler. A transaction it began has ended exactly once when it returns, and a batch
   * with an operation it cannot read changes nothing.
   */
  method CommitBatch(d: Dict, batch: seq<BatchOp>, expires: nat, begins: bool, loads: bool, flushed: bool)
    returns (reply: Reply, tx: Tx?)
    modifies d`rows
    ensures tx != null <==> batch != [] && begins
    ensures tx != null ==> fresh(tx) && tx.done && tx.ended == 1
    ensures batch == [] || (begins && ReadAll(batch).None?) ==> reply == BadRequest && d.rows == old(d.rows)
    ensures batch != [] && !begins ==> reply == Committed(Failed) && d.rows == old(d.rows)
    ensures tx != null && ReadAll(batch).Some? && !d.inPlace ==>
              (reply == Committed(Ok) <==>
                 !d.closed && loads && ApplyAll(old(d.rows), ReadAll(batch).value, expires).Done? && flushed)
    ensures tx != null && ReadAll(batch).Some? && !d.inPlace ==>
              d.rows == if reply == Committed(Ok) then ApplyAll(old(d.rows), ReadAll(batch).value, expires).rows
                        else old(d.rows)
    ensures tx != null && ReadAll(batch).Some? && d.inPlace && !d.closed ==>
              d.rows == Reached(old(d.rows), ReadAll(batch).value, expires)
    ensures tx != null && ReadAll(batch).Some? && d.inPlace && !d.closed ==>
              (reply == Committed(Ok) <==> ApplyAll(old(d.rows), ReadAll(batch).value, expires).Done?)
  {
    tx := null;
    if batch == [] {
      return BadRequest, tx;
    }
    if !begins {
      return Committed(Failed), tx;
    }
    var t := new Tx(d, expires);
    tx := t;
    for i := 0 to |batch|
      invariant fresh(t) && !t.done && t.ended == 0 && t.dict == d && t.expires == expires && d.rows == old(d.rows)
      invariant ReadAll(batch[..i]) == Some(t.ops)
    {
      assert batch[..i + 1][..i] == batch[..i];
      var op := Read(batch[i]);
      if op.None? {
        ReadAllStops(batch, i);
        t.Rollback();
        return BadRequest, tx;
      }
      var added := t.Add(op.value);
    }
    assert batch[..|batch|] == batch;
    var result := t.Commit(loads, flushed);
    reply := Committed(result);
  }

  /** The single-operation endpoints: begin, one operation, commit; an operation that fails is rolled back. */
  method RunSingle(d: Dict, op: Op, expires: nat, begins: bool, opFails: bool, loads: bool, flushed: bool)
    returns (reply: Result, tx: Tx?)
    modifies d`rows
    ensures tx != null <==> begins
    ensures tx != null ==> fresh(tx) && tx.done && tx.ended == 1
    ensures !begins || opFails || d.closed ==> reply == Failed && d.rows == old(d.rows)
    ensures reply == Ok ==> ApplyOne(old(d.rows), op, expires) == Done(d.rows)
    ensures reply != Ok && ApplyOne(old(d.rows), op, expires).Done? && loads && flushed ==>
              !begins || opFails || d.closed
    ensures reply != Ok ==> d.rows == old(d.rows)
  {
    tx := null;
    if !begins {
      return Failed, tx;
    }
    var t := new Tx(d, expires);
    tx := t;
    if opFails {
      t.Rollback();
      return Failed, tx;
    }
    var added := t.Add(op);
    assert t.ops == [op] && t.ops[1..] == [];
    SingleApplied(d.rows, op, expires);
    reply := t.Commit(loads, flushed);
  }

  lemma SingleApplied(rows: Rows, op: Op, expires: nat)
    ensures ApplyAll(rows, [op], expires) == ApplyOne(rows, op, expires)
    ensures Reached(rows, [op], expires)
         == if ApplyOne(rows, op, expires).Done? then ApplyOne(rows, op, expires).rows else rows
  {
    assert [op][1..] == [];
  }
}
