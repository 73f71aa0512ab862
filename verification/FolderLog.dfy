/** A folder index's transaction log folded over its base: internal/storage/mailbox/dboxindex. */
module FolderLog {
  import opened Basics

  /** A flag byte, as the numbers of the bits set in it. */
  type Bits = set<nat>

  datatype Record = Record(uid: nat, flags: Bits, keywords: seq<string>, ext: map<string, seq<nat>>)

  datatype Change =
    | Appended(uid: nat, flags: Bits)
    | Expunged(uid: nat)
    | FlagsChanged(uid: nat, remove: Bits, add: Bits)
    | KeywordAdded(uid: nat, word: string)
    | KeywordRemoved(uid: nat, word: string)
    | KeywordsReset(uid: nat)
    | ExtRecordSet(uid: nat, name: string, data: seq<nat>)

  // ---------------------------------------------------------------- one record

  function Without(list: seq<string>, word: string): (r: seq<string>)
    ensures forall w :: w in r <==> w in list && w != word
  {
    if list == [] then []
    else (if list[0] == word then [] else [list[0]]) + Without(list[1..], word)
  }

  const POWERS := [1, 2, 4, 8, 16, 32, 64, 128]

  predicate MaskBit(mask: seq<nat>, i: nat)
    requires i / 8 < |mask|
  {
    mask[i / 8] / POWERS[i % 8] % 2 == 1
  }

  /** The names whose bits are set; a mask too short for the table says nothing about the rest of it. */
  function FromMask(mask: seq<nat>, names: seq<string>, i: nat): seq<string>
    decreases |names| - i
  {
    if i >= |names| || i / 8 >= |mask| then []
    else (if MaskBit(mask, i) then [names[i]] else []) + FromMask(mask, names, i + 1)
  }

  /** Eight bits in a byte, the first the lowest. */
  function Octet(on: seq<bool>): nat
    requires |on| >= 8
  {
    (if on[0] then 1 else 0) + (if on[1] then 2 else 0) + (if on[2] then 4 else 0) + (if on[3] then 8 else 0)
    + (if on[4] then 16 else 0) + (if on[5] then 32 else 0) + (if on[6] then 64 else 0) + (if on[7] then 128 else 0)
  }

  function Packed(on: seq<bool>): (mask: seq<nat>)
    requires |on| % 8 == 0
    ensures |mask| == |on| / 8
  {
    if on == [] then [] else [Octet(on)] + Packed(on[8..])
  }

  function Chosen(on: seq<bool>, names: seq<string>, i: nat): seq<string>
    decreases |names| - i
  {
    if i >= |names| || i >= |on| then [] else (if on[i] then [names[i]] else []) + Chosen(on, names, i + 1)
  }

  lemma Halved(n: nat, on: bool, rest: nat)
    requires n == (if on then 1 else 0) + 2 * rest
    ensures n / 2 == rest && (n % 2 == 1 <==> on)
  {
  }

  lemma LowBits(n: nat, a: bool, b: bool, c: bool, d: bool, upper: nat)
    requires n == (if a then 1 else 0) + (if b then 2 else 0) + (if c then 4 else 0) + (if d then 8 else 0) + 16 * upper
    ensures (n % 2 == 1 <==> a) && (n / 2 % 2 == 1 <==> b) && (n / 4 % 2 == 1 <==> c) && (n / 8 % 2 == 1 <==> d)
    ensures n / 16 == upper
  {
    var r3 := (if d then 1 else 0) + 2 * upper;
    var r2 := (if c then 1 else 0) + 2 * r3;
    var r1 := (if b then 1 else 0) + 2 * r2;
    Halved(n, a, r1);
    Halved(r1, b, r2);
    Halved(r2, c, r3);
    Halved(r3, d, upper);
    assert n / 4 == n / 2 / 2 && n / 8 == n / 4 / 2 && n / 16 == n / 8 / 2;
  }

  lemma OctetBits(on: seq<bool>)
    requires |on| >= 8
    ensures var n := Octet(on);
            && (n % 2 == 1 <==> on[0]) && (n / 2 % 2 == 1 <==> on[1]) && (n / 4 % 2 == 1 <==> on[2])
            && (n / 8 % 2 == 1 <==> on[3]) && (n / 16 % 2 == 1 <==> on[4]) && (n / 32 % 2 == 1 <==> on[5])
            && (n / 64 % 2 == 1 <==> on[6]) && (n / 128 % 2 == 1 <==> on[7])
  {
    var n := Octet(on);
    var upper := (if on[4] then 1 else 0) + (if on[5] then 2 else 0) + (if on[6] then 4 else 0)
      + (if on[7] then 8 else 0);
    LowBits(n, on[0], on[1], on[2], on[3], upper);
    LowBits(upper, on[4], on[5], on[6], on[7], 0);
    assert n / 32 == n / 16 / 2 && n / 64 == n / 16 / 4 && n / 128 == n / 16 / 8;
  }

  lemma OctetBit(on: seq<bool>, j: nat)
    requires |on| >= 8 && j < 8
    ensures Octet(on) / POWERS[j] % 2 == 1 <==> on[j]
  {
    OctetBits(on);
    var w := POWERS[j];
    if j < 4 {
      assert w == if j == 0 then 1 else if j == 1 then 2 else if j == 2 then 4 else 8;
    } else {
      assert w == if j == 4 then 16 else if j == 5 then 32 else if j == 6 then 64 else 128;
    }
  }

  lemma {:induction false} PackedBit(on: seq<bool>, i: nat)
    requires |on| % 8 == 0 && i < |on|
    ensures i / 8 < |Packed(on)| && (MaskBit(Packed(on), i) <==> on[i])
  {
    if i < 8 {
      OctetBit(on, i);
    } else {
      PackedBit(on[8..], i - 8);
      assert (i - 8) / 8 == i / 8 - 1 && (i - 8) % 8 == i % 8;
    }
  }

  /** A mask of any bits names exactly the keywords whose bits are set, in the order of the table. */
  lemma {:induction false} MaskReads(on: seq<bool>, names: seq<string>, i: nat)
    requires |on| % 8 == 0
    ensures FromMask(Packed(on), names, i) == Chosen(on, names, i)
    decreases |names| - i
  {
    if i < |names| && i < |on| {
      PackedBit(on, i);
      MaskReads(on, names, i + 1);
    }
  }

  /** What a change does to the record it names; flags are removed before they are added. */
  function Edit(r: Record, c: Change, names: seq<string>): (e: Record)
    ensures e.uid == r.uid
  {
    match c
    case FlagsChanged(_, remove, add) => r.(flags := (r.flags - remove) + add)
    case KeywordAdded(_, word) => if word in r.keywords then r else r.(keywords := r.keywords + [word])
    case KeywordRemoved(_, word) => r.(keywords := Without(r.keywords, word))
    case KeywordsReset(_) => r.(keywords := [])
    case ExtRecordSet(_, name, data) =>
      r.(ext := r.ext[name := data],
         keywords := if name == "keywords" && names != [] then FromMask(data, names, 0) else r.keywords)
    case _ => r
  }

  function EditAll(r: Record, cs: seq<Change>, names: seq<string>): (e: Record)
    ensures e.uid == r.uid
  {
    if cs == [] then r else Edit(EditAll(r, cs[..|cs| - 1], names), cs[|cs| - 1], names)
  }

  /** The same message but for the order of its keywords. */
  ghost predicate SameRecord(a: Record, b: Record) {
    && a.uid == b.uid && a.flags == b.flags && a.ext == b.ext
    && (forall w :: w in a.keywords <==> w in b.keywords)
  }

  lemma EditKeepsSame(a: Record, b: Record, c: Change, names: seq<string>)
    requires SameRecord(a, b)
    ensures SameRecord(Edit(a, c, names), Edit(b, c, names))
  {
  }

  function Removed(cs: seq<Change>): Bits {
    if cs == [] then {}
    else
      var c := cs[|cs| - 1];
      if c.FlagsChanged? then Removed(cs[..|cs| - 1]) + c.remove else Removed(cs[..|cs| - 1])
  }

  function Added(cs: seq<Change>): Bits {
    if cs == [] then {}
    else
      var c := cs[|cs| - 1];
      if c.FlagsChanged? then (Added(cs[..|cs| - 1]) - c.remove) + c.add else Added(cs[..|cs| - 1])
  }

  lemma {:induction false} FlagsAre(r: Record, cs: seq<Change>, names: seq<string>)
    ensures EditAll(r, cs, names).flags == (r.flags - Removed(cs)) + Added(cs)
  {
    if cs != [] {
      FlagsAre(r, cs[..|cs| - 1], names);
    }
  }

  function Extensions(cs: seq<Change>): map<string, seq<nat>> {
    if cs == [] then map[]
    else
      var c := cs[|cs| - 1];
      if c.ExtRecordSet? then Extensions(cs[..|cs| - 1])[c.name := c.data] else Extensions(cs[..|cs| - 1])
  }

  lemma {:induction false} ExtensionsAre(r: Record, cs: seq<Change>, names: seq<string>)
    ensures EditAll(r, cs, names).ext == r.ext + Extensions(cs)
  {
    if cs != [] {
      ExtensionsAre(r, cs[..|cs| - 1], names);
    }
  }

  /** Whether the changes leave a keyword set, if they touch it. */
  function LastSays(cs: seq<Change>, names: seq<string>, word: string): Option<bool> {
    if cs == [] then None
    else
      match cs[|cs| - 1]
      case KeywordAdded(_, w) => if w == word then Some(true) else LastSays(cs[..|cs| - 1], names, word)
      case KeywordRemoved(_, w) => if w == word then Some(false) else LastSays(cs[..|cs| - 1], names, word)
      case KeywordsReset(_) => Some(false)
      case ExtRecordSet(_, name, data) =>
        if name == "keywords" && names != [] then Some(word in FromMask(data, names, 0))
        else LastSays(cs[..|cs| - 1], names, word)
      case _ => LastSays(cs[..|cs| - 1], names, word)
  }

  lemma {:induction false} KeywordsAre(r: Record, cs: seq<Change>, names: seq<string>, word: string)
    ensures word in EditAll(r, cs, names).keywords
       <==> (if LastSays(cs, names, word).Some? then LastSays(cs, names, word).value else word in r.keywords)
  {
    if cs != [] {
      KeywordsAre(r, cs[..|cs| - 1], names, word);
    }
  }

  /** A run of changes read a second time over its own result makes no difference. */
  lemma EditTwice(r: Record, cs: seq<Change>, names: seq<string>)
    ensures SameRecord(EditAll(EditAll(r, cs, names), cs, names), EditAll(r, cs, names))
  {
    var once := EditAll(r, cs, names);
    var twice := EditAll(once, cs, names);
    FlagsAre(r, cs, names);
    FlagsAre(once, cs, names);
    ExtensionsAre(r, cs, names);
    ExtensionsAre(once, cs, names);
    assert r.ext + Extensions(cs) + Extensions(cs) == r.ext + Extensions(cs);
    forall w
      ensures w in twice.keywords <==> w in once.keywords
    {
      KeywordsAre(r, cs, names, w);
      KeywordsAre(once, cs, names, w);
    }
  }

  /** Their order can change: a keyword removed and set again comes to stand behind one set after it. */
  lemma EditTwiceReorders()
    ensures var r := Record(1, {}, ["v"], map[]);
            var cs := [KeywordRemoved(1, "v"), KeywordAdded(1, "v"), KeywordAdded(1, "w")];
            && EditAll(r, cs, []).keywords == ["v", "w"]
            && EditAll(EditAll(r, cs, []), cs, []).keywords == ["w", "v"]
  {
    var r, once := Record(1, {}, ["v"], map[]), Record(1, {}, ["v", "w"], map[]);
    var cs := [KeywordRemoved(1, "v"), KeywordAdded(1, "v"), KeywordAdded(1, "w")];
    assert cs[..2] == [cs[0], cs[1]] && cs[..2][..1] == [cs[0]] && cs[..2][..1][..0] == [];
    assert Without(["v"], "v") == [] by { assert ["v"][1..] == []; }
    assert Without(["v", "w"], "v") == ["w"] by {
      assert ["v", "w"][1..] == ["w"] && ["w"][1..] == [];
    }
    assert EditAll(r, cs[..2][..1], []).keywords == [];
    assert EditAll(r, cs[..2], []).keywords == ["v"];
    assert EditAll(r, cs, []) == once;
    assert EditAll(once, cs[..2][..1], []).keywords == ["w"];
    assert EditAll(once, cs[..2], []).keywords == ["w", "v"];
  }

  // ---------------------------------------------------------------- a folder

  /** What a folder holds, change by change. */
  function Mail(h: seq<Change>, names: seq<string>): seq<Record> {
    if h == [] then [] else Happen(Mail(h[..|h| - 1], names), h[|h| - 1], names)
  }

  function Happen(mail: seq<Record>, c: Change, names: seq<string>): seq<Record> {
    match c
    case Appended(uid, flags) => mail + [Record(uid, flags, [], map[])]
    case Expunged(uid) => Keep({uid}, mail)
    case _ => EditIn(mail, c, names)
  }

  /** The records of no uid in the set. */
  function Keep(gone: set<nat>, rs: seq<Record>): seq<Record> {
    if rs == [] then [] else (if rs[0].uid in gone then [] else [rs[0]]) + Keep(gone, rs[1..])
  }

  function EditIn(rs: seq<Record>, c: Change, names: seq<string>): (r: seq<Record>)
    ensures |r| == |rs|
    ensures forall i :: 0 <= i < |rs| ==> r[i] == if rs[i].uid == c.uid then Edit(rs[i], c, names) else rs[i]
  {
    if rs == [] then []
    else [if rs[0].uid == c.uid then Edit(rs[0], c, names) else rs[0]] + EditIn(rs[1..], c, names)
  }

  /** A uid is new when a message is appended under it: no earlier change names it. */
  predicate Orderly(h: seq<Change>) {
    forall i, j :: 0 <= i < j < |h| && h[j].Appended? ==> h[i].uid != h[j].uid
  }

  // ---------------------------------------------------------------- the fold

  datatype Folding = Folding(out: seq<Record>, gone: set<nat>)

  /** Where a uid stands, the last if twice. */
  function At(out: seq<Record>, uid: nat): (i: Option<nat>)
    ensures i.Some? ==> i.value < |out| && out[i.value].uid == uid
    ensures i.None? ==> forall j :: 0 <= j < |out| ==> out[j].uid != uid
  {
    if out == [] then None
    else if out[|out| - 1].uid == uid then Some(|out| - 1)
    else At(out[..|out| - 1], uid)
  }

  /** A duplicate append is the overlap with the base; a change of an unknown uid is another folder's. */
  function Step(f: Folding, c: Change, names: seq<string>): Folding {
    match c
    case Appended(uid, flags) =>
      Folding(if At(f.out, uid).Some? then f.out else f.out + [Record(uid, flags, [], map[])], f.gone - {uid})
    case Expunged(uid) => f.(gone := f.gone + {uid})
    case _ =>
      var i := At(f.out, c.uid);
      if i.Some? then f.(out := f.out[i.value := Edit(f.out[i.value], c, names)]) else f
  }

  function Fold(f: Folding, cs: seq<Change>, names: seq<string>): Folding {
    if cs == [] then f else Step(Fold(f, cs[..|cs| - 1], names), cs[|cs| - 1], names)
  }

  function Survivors(f: Folding): seq<Record> {
    Keep(f.gone, f.out)
  }

  function Apply(base: seq<Record>, cs: seq<Change>, names: seq<string>): seq<Record> {
    Survivors(Fold(Folding(base, {}), cs, names))
  }

  method PositionsOf(base: seq<Record>) returns (at: map<nat, nat>)
    ensures Positions(at, base)
  {
    at := map[];
    for i := 0 to |base|
      invariant Positions(at, base[..i])
    {
      assert base[..i + 1] == base[..i] + [base[i]];
      AppendPositions(base[..i], base[i]);
      at := at[base[i].uid := i];
    }
    assert base[..|base|] == base;
  }

  method KeepOthers(gone: set<nat>, out: seq<Record>) returns (kept: seq<Record>)
    ensures kept == Keep(gone, out)
  {
    kept := [];
    for i := 0 to |out|
      invariant kept == Keep(gone, out[..i])
    {
      assert out[..i + 1] == out[..i] + [out[i]];
      KeepLast(gone, out[..i], out[i]);
      if out[i].uid !in gone {
        kept := kept + [out[i]];
      }
    }
    assert out[..|out|] == out;
  }

  lemma {:induction false} KeepLast(gone: set<nat>, rs: seq<Record>, r: Record)
    ensures Keep(gone, rs + [r]) == if r.uid in gone then Keep(gone, rs) else Keep(gone, rs) + [r]
  {
    KeepConcat(gone, rs, [r]);
    assert Keep(gone, [r]) == if r.uid in gone then [] else [r] by { assert [r][1..] == []; }
  }

  /** The loop of `Apply`, with its position map and its set of expunged uids. */
  method ApplyLog(base: seq<Record>, cs: seq<Change>, names: seq<string>) returns (kept: seq<Record>)
    ensures kept == Apply(base, cs, names)
  {
    var out, gone: set<nat> := base, {};
    var at := PositionsOf(base);
    for i := 0 to |cs|
      invariant Fold(Folding(base, {}), cs[..i], names) == Folding(out, gone)
      invariant Positions(at, out)
    {
      assert cs[..i + 1][..i] == cs[..i];
      var c := cs[i];
      match c {
        case Appended(uid, flags) =>
          if uid !in at {
            at := at[uid := |out|];
            AppendPositions(out, Record(uid, flags, [], map[]));
            out := out + [Record(uid, flags, [], map[])];
          }
          gone := gone - {uid};
        case Expunged(uid) =>
          gone := gone + {uid};
        case _ =>
          if c.uid in at {
            EditPositions(out, at[c.uid], Edit(out[at[c.uid]], c, names));
            out := out[at[c.uid] := Edit(out[at[c.uid]], c, names)];
          }
      }
    }
    assert cs[..|cs|] == cs;
    kept := KeepOthers(gone, out);
  }

  ghost predicate Positions(at: map<nat, nat>, out: seq<Record>) {
    && (forall u :: u in at <==> At(out, u).Some?)
    && (forall u :: u in at ==> At(out, u) == Some(at[u]))
  }

  lemma AppendPositions(out: seq<Record>, r: Record)
    ensures forall u :: At(out + [r], u) == if u == r.uid then Some(|out|) else At(out, u)
  {
    assert (out + [r])[..|out|] == out;
  }

  lemma {:induction false} EditPositions(out: seq<Record>, i: nat, r: Record)
    requires i < |out| && out[i].uid == r.uid
    ensures forall u :: At(out[i := r], u) == At(out, u)
  {
    var n := |out| - 1;
    if i < n {
      EditPositions(out[..n], i, r);
      assert out[i := r][..n] == out[..n][i := r];
    } else {
      assert out[i := r][..n] == out[..n];
    }
  }

  // ---------------------------------------------------------------- keeping and editing commute

  ghost predicate HasUid(rs: seq<Record>, u: nat) {
    exists i :: 0 <= i < |rs| && rs[i].uid == u
  }

  ghost predicate DistinctUids(rs: seq<Record>) {
    forall i, j :: 0 <= i < j < |rs| ==> rs[i].uid != rs[j].uid
  }

  lemma {:induction false} KeepMembers(gone: set<nat>, rs: seq<Record>, r: Record)
    ensures r in Keep(gone, rs) <==> r in rs && r.uid !in gone
  {
    if rs != [] { KeepMembers(gone, rs[1..], r); }
  }

  lemma {:induction false} KeepConcat(gone: set<nat>, a: seq<Record>, b: seq<Record>)
    ensures Keep(gone, a + b) == Keep(gone, a) + Keep(gone, b)
  {
    if a == [] {
      assert a + b == b;
    } else {
      assert (a + b)[1..] == a[1..] + b;
      KeepConcat(gone, a[1..], b);
    }
  }

  lemma {:induction false} KeepMore(gone: set<nat>, u: nat, rs: seq<Record>)
    ensures Keep(gone + {u}, rs) == Keep({u}, Keep(gone, rs))
  {
    if rs != [] {
      KeepMore(gone, u, rs[1..]);
      var rest := Keep(gone, rs[1..]);
      if rs[0].uid in gone {
        assert [] + rest == rest;
      } else {
        assert ([rs[0]] + rest)[1..] == rest;
      }
    }
  }

  lemma {:induction false} KeepUnknown(gone: set<nat>, u: nat, rs: seq<Record>)
    requires !HasUid(rs, u)
    ensures Keep(gone - {u}, rs) == Keep(gone, rs)
  {
    if rs != [] {
      assert rs[0].uid != u;
      assert forall i :: 0 <= i < |rs[1..]| ==> rs[1..][i] == rs[i + 1];
      KeepUnknown(gone, u, rs[1..]);
    }
  }

  lemma {:induction false} KeepAll(gone: set<nat>, rs: seq<Record>)
    requires forall i :: 0 <= i < |rs| ==> rs[i].uid !in gone
    ensures Keep(gone, rs) == rs
  {
    if rs != [] { KeepAll(gone, rs[1..]); }
  }

  lemma {:induction false} KeepNone(gone: set<nat>, rs: seq<Record>)
    requires forall i :: 0 <= i < |rs| ==> rs[i].uid in gone
    ensures Keep(gone, rs) == []
  {
    if rs != [] { KeepNone(gone, rs[1..]); }
  }

  lemma Cons(gone: set<nat>, r: Record, rest: seq<Record>, c: Change, names: seq<string>)
    ensures Keep(gone, [r] + rest) == (if r.uid in gone then [] else [r]) + Keep(gone, rest)
    ensures EditIn([r] + rest, c, names) == [if r.uid == c.uid then Edit(r, c, names) else r] + EditIn(rest, c, names)
  {
    assert ([r] + rest)[1..] == rest;
  }

  lemma {:induction false} KeepEdit(gone: set<nat>, rs: seq<Record>, c: Change, names: seq<string>)
    ensures Keep(gone, EditIn(rs, c, names)) == EditIn(Keep(gone, rs), c, names)
  {
    if rs != [] {
      var r, rest := rs[0], rs[1..];
      var e := if r.uid == c.uid then Edit(r, c, names) else r;
      KeepEdit(gone, rest, c, names);
      assert rs == [r] + rest;
      Cons(gone, r, rest, c, names);
      Cons(gone, e, EditIn(rest, c, names), c, names);
      if r.uid in gone {
        assert [] + Keep(gone, rest) == Keep(gone, rest);
      } else {
        Cons(gone, r, Keep(gone, rest), c, names);
      }
    }
  }

  lemma {:induction false} KeepDistinct(gone: set<nat>, rs: seq<Record>)
    requires DistinctUids(rs)
    ensures DistinctUids(Keep(gone, rs))
  {
    if rs != [] {
      KeepDistinct(gone, rs[1..]);
      var rest := Keep(gone, rs[1..]);
      forall j | 0 <= j < |rest|
        ensures rest[j].uid != rs[0].uid
      {
        KeepMembers(gone, rs[1..], rest[j]);
        var i :| 0 <= i < |rs[1..]| && rs[1..][i] == rest[j];
        assert rs[i + 1] == rest[j];
      }
    }
  }

  /** An edit at the position of a uid is an edit of every record of that uid, there being one. */
  lemma EditAt(f: Folding, c: Change, names: seq<string>)
    requires DistinctUids(f.out) && !c.Appended? && !c.Expunged?
    ensures Step(f, c, names) == f.(out := EditIn(f.out, c, names))
  {
    var i := At(f.out, c.uid);
    var edited := EditIn(f.out, c, names);
    if i.Some? {
      forall j | 0 <= j < |f.out| && j != i.value
        ensures f.out[j].uid != c.uid
      {
        assert j < i.value || i.value < j;
      }
      assert f.out[i.value := Edit(f.out[i.value], c, names)] == edited;
    } else {
      assert f.out == edited;
    }
  }

  lemma StepDistinct(f: Folding, c: Change, names: seq<string>)
    requires DistinctUids(f.out)
    ensures DistinctUids(Step(f, c, names).out)
    ensures forall u :: HasUid(Step(f, c, names).out, u) <==> HasUid(f.out, u) || (c.Appended? && u == c.uid)
  {
    if !c.Appended? && !c.Expunged? {
      EditAt(f, c, names);
      assert forall i :: 0 <= i < |f.out| ==> EditIn(f.out, c, names)[i].uid == f.out[i].uid;
    } else if c.Appended? {
      var out := Step(f, c, names).out;
      if At(f.out, c.uid).None? {
        assert out[|f.out|].uid == c.uid;
        assert forall i :: 0 <= i < |f.out| ==> out[i] == f.out[i];
      }
    }
  }

  /** One step of the fold is the change happening to what survives, an append of a known uid aside. */
  lemma SurvivorsStep(f: Folding, c: Change, names: seq<string>)
    requires DistinctUids(f.out) && (c.Appended? ==> !HasUid(f.out, c.uid))
    ensures Survivors(Step(f, c, names)) == Happen(Survivors(f), c, names)
  {
    match c
    case Appended(uid, flags) =>
      var r := Record(uid, flags, [], map[]);
      assert At(f.out, uid).None?;
      KeepConcat(f.gone - {uid}, f.out, [r]);
      KeepUnknown(f.gone, uid, f.out);
      assert Keep(f.gone - {uid}, [r]) == [r];
    case Expunged(uid) =>
      KeepMore(f.gone, uid, f.out);
    case _ =>
      EditAt(f, c, names);
      KeepEdit(f.gone, f.out, c, names);
  }

  ghost predicate Names(cs: seq<Change>, u: nat) {
    exists i :: 0 <= i < |cs| && cs[i].uid == u
  }

  lemma {:induction false} FoldUids(f: Folding, cs: seq<Change>, names: seq<string>, u: nat)
    requires DistinctUids(f.out)
    ensures DistinctUids(Fold(f, cs, names).out)
    ensures HasUid(Fold(f, cs, names).out, u) ==> HasUid(f.out, u) || Names(cs, u)
  {
    if cs != [] {
      var front := cs[..|cs| - 1];
      FoldUids(f, front, names, u);
      StepDistinct(Fold(f, front, names), cs[|cs| - 1], names);
      if Names(front, u) {
        var i :| 0 <= i < |front| && front[i].uid == u;
        assert cs[i].uid == u;
      }
    }
  }

  lemma OrderlyPrefix(h: seq<Change>, j: nat)
    requires Orderly(h) && j <= |h|
    ensures Orderly(h[..j])
    ensures j < |h| && h[j].Appended? ==> !Names(h[..j], h[j].uid)
  {
  }

  /** A log read from the start of an orderly history gives the folder. */
  lemma {:induction false} ApplyIsMail(h: seq<Change>, names: seq<string>)
    requires Orderly(h)
    ensures Apply([], h, names) == Mail(h, names)
  {
    if h != [] {
      var n, empty := |h| - 1, Folding([], {});
      OrderlyPrefix(h, n);
      ApplyIsMail(h[..n], names);
      FoldUids(empty, h[..n], names, h[n].uid);
      SurvivorsStep(Fold(empty, h[..n], names), h[n], names);
    }
  }

  // ---------------------------------------------------------------- who is in the folder

  lemma {:induction false} MailDistinct(h: seq<Change>, names: seq<string>)
    requires Orderly(h)
    ensures DistinctUids(Mail(h, names))
    ensures forall r :: r in Mail(h, names) ==> Names(h, r.uid)
  {
    if h != [] {
      var n := |h| - 1;
      var before, c := Mail(h[..n], names), h[n];
      OrderlyPrefix(h, n);
      MailDistinct(h[..n], names);
      forall r | r in Mail(h, names)
        ensures Names(h, r.uid)
      {
        HappenMembers(before, c, names, r);
        if c.Appended? && r.uid == c.uid {
          assert h[n].uid == r.uid;
        } else {
          var i :| 0 <= i < n && h[..n][i].uid == r.uid;
          assert h[i].uid == r.uid;
        }
      }
      if c.Expunged? {
        KeepDistinct({c.uid}, before);
      } else if c.Appended? {
        forall i | 0 <= i < |before|
          ensures before[i].uid != c.uid
        {
          assert before[i] in before;
        }
      }
    }
  }

  lemma HappenMembers(mail: seq<Record>, c: Change, names: seq<string>, r: Record)
    requires r in Happen(mail, c, names)
    ensures (c.Appended? && r.uid == c.uid) || exists q :: q in mail && q.uid == r.uid
  {
    match c
    case Appended(uid, flags) =>
    case Expunged(uid) => KeepMembers({uid}, mail, r);
    case _ =>
      var i :| 0 <= i < |mail| && EditIn(mail, c, names)[i] == r;
      assert mail[i] in mail;
  }

  ghost predicate Expunges(cs: seq<Change>, u: nat) {
    Expunged(u) in cs
  }

  ghost predicate Appends(cs: seq<Change>, u: nat) {
    exists i :: 0 <= i < |cs| && cs[i].Appended? && cs[i].uid == u
  }

  lemma HappenHas(mail: seq<Record>, c: Change, names: seq<string>, u: nat)
    ensures HasUid(Happen(mail, c, names), u)
       <==> (c.Appended? && c.uid == u) || (HasUid(mail, u) && c != Expunged(u))
  {
    var after := Happen(mail, c, names);
    match c
    case Appended(uid, flags) =>
      assert after[|mail|].uid == uid;
      assert forall i :: 0 <= i < |mail| ==> after[i] == mail[i];
    case Expunged(uid) =>
      forall r ensures r in after <==> r in mail && r.uid != uid { KeepMembers({uid}, mail, r); }
      assert HasUid(after, u) <==> exists r :: r in after && r.uid == u;
      assert HasUid(mail, u) <==> exists r :: r in mail && r.uid == u;
    case _ =>
      assert forall i :: 0 <= i < |mail| ==> after[i].uid == mail[i].uid;
  }

  /** A message is in the folder exactly when it was appended and not expunged. */
  lemma {:induction false} MailHas(h: seq<Change>, names: seq<string>, u: nat)
    requires Orderly(h)
    ensures HasUid(Mail(h, names), u) <==> Appends(h, u) && !Expunges(h, u)
  {
    if h != [] {
      var n := |h| - 1;
      var c := h[n];
      OrderlyPrefix(h, n);
      MailHas(h[..n], names, u);
      HappenHas(Mail(h[..n], names), c, names, u);
      assert h == h[..n] + [c];
      assert Expunges(h, u) <==> Expunges(h[..n], u) || c == Expunged(u);
      AppendsLast(h[..n], c, u);
    }
  }

  lemma AppendsLast(cs: seq<Change>, c: Change, u: nat)
    ensures Appends(cs + [c], u) <==> Appends(cs, u) || (c.Appended? && c.uid == u)
  {
    var all := cs + [c];
    assert all[|cs|] == c;
    assert forall i :: 0 <= i < |cs| ==> all[i] == cs[i];
  }

  // ---------------------------------------------------------------- what a folder says of a message

  /** Whether the changes leave a flag set, if they touch it. */
  function FlagSays(cs: seq<Change>, bit: nat): Option<bool> {
    if cs == [] then None
    else
      var c := cs[|cs| - 1];
      if c.FlagsChanged? && bit in c.add then Some(true)
      else if c.FlagsChanged? && bit in c.remove then Some(false)
      else FlagSays(cs[..|cs| - 1], bit)
  }

  lemma {:induction false} FlagIs(r: Record, cs: seq<Change>, names: seq<string>, bit: nat)
    ensures bit in EditAll(r, cs, names).flags
       <==> (if FlagSays(cs, bit).Some? then FlagSays(cs, bit).value else bit in r.flags)
  {
    if cs != [] { FlagIs(r, cs[..|cs| - 1], names, bit); }
  }

  lemma NotThereYet(h: seq<Change>, i: nat, names: seq<string>, r: Record)
    requires Orderly(h) && i < |h| && h[i].Appended? && r in Mail(h[..i], names)
    ensures r.uid != h[i].uid
  {
    OrderlyPrefix(h, i);
    MailDistinct(h[..i], names);
    var j :| 0 <= j < i && h[..i][j].uid == r.uid;
    assert h[j].uid == r.uid;
  }

  lemma RecordWhenAppended(h: seq<Change>, i: nat, names: seq<string>, r: Record)
    requires Orderly(h) && i < |h| && h[i].Appended? && r in Mail(h[..i + 1], names) && r.uid == h[i].uid
    ensures r == Record(r.uid, h[i].flags, [], map[])
  {
    assert h[..i + 1][..i] == h[..i];
    if r in Mail(h[..i], names) { NotThereYet(h, i, names, r); }
  }

  lemma ThereBefore(h: seq<Change>, i: nat, m: nat, names: seq<string>, r: Record) returns (q: Record)
    requires Orderly(h) && i < m < |h| && h[i].Appended? && r in Mail(h[..m + 1], names) && r.uid == h[i].uid
    ensures q in Mail(h[..m], names) && q.uid == r.uid && r == if h[m].uid == q.uid then Edit(q, h[m], names) else q
  {
    assert h[..m + 1][..m] == h[..m];
    q := HappenFrom(Mail(h[..m], names), h[m], names, r);
    if h[m].Appended? { assert h[i].uid != h[m].uid; }
  }

  /** A message's record is what the changes since its append made of it. */
  lemma {:induction false} RecordIs(h: seq<Change>, i: nat, m: nat, names: seq<string>, r: Record)
    requires Orderly(h) && i < m <= |h| && h[i].Appended? && r in Mail(h[..m], names) && r.uid == h[i].uid
    ensures r == EditAll(Record(r.uid, h[i].flags, [], map[]), Of(h[i + 1..m], r.uid), names)
    decreases m
  {
    if m == i + 1 {
      RecordWhenAppended(h, i, names, r);
      assert h[i + 1..m] == [];
    } else {
      var q := ThereBefore(h, i, m - 1, names, r);
      RecordIs(h, i, m - 1, names, q);
      EditedSince(h, i, m - 1, names, q, Record(r.uid, h[i].flags, [], map[]));
    }
  }

  lemma EditedSince(h: seq<Change>, i: nat, m: nat, names: seq<string>, q: Record, first: Record)
    requires i < m < |h| && q == EditAll(first, Of(h[i + 1..m], q.uid), names)
    ensures EditAll(first, Of(h[i + 1..m + 1], q.uid), names) == if h[m].uid == q.uid then Edit(q, h[m], names) else q
  {
    OfOneMore(h, i + 1, m, q.uid);
    EditOneMore(first, Of(h[i + 1..m], q.uid), h[m], names);
  }

  /**
   * So of every message in the folder: a flag is set as the last change that touched it left it, and
   * as it was appended if none did; a keyword likewise, starting unset; and its other data are what
   * was set last.
   */
  lemma MessageIs(h: seq<Change>, i: nat, names: seq<string>, r: Record, bit: nat, word: string)
    requires Orderly(h) && i < |h| && h[i].Appended? && r in Mail(h, names) && r.uid == h[i].uid
    ensures var cs := Of(h[i + 1..], r.uid);
            && (bit in r.flags <==> (FlagSays(cs, bit) == Some(true) || (FlagSays(cs, bit).None? && bit in h[i].flags)))
            && (word in r.keywords <==> LastSays(cs, names, word) == Some(true))
            && r.ext == Extensions(cs)
  {
    assert h[..|h|] == h && h[i + 1..|h|] == h[i + 1..];
    RecordIs(h, i, |h|, names, r);
    var first, cs := Record(r.uid, h[i].flags, [], map[]), Of(h[i + 1..], r.uid);
    FlagIs(first, cs, names, bit);
    KeywordsAre(first, cs, names, word);
    ExtensionsAre(first, cs, names);
    assert map[] + Extensions(cs) == Extensions(cs);
  }

  ghost predicate StandsBefore(rs: seq<Record>, u: nat, v: nat) {
    exists p, q :: 0 <= p < q < |rs| && rs[p].uid == u && rs[q].uid == v
  }

  lemma {:induction false} KeepHas(gone: set<nat>, rs: seq<Record>, u: nat)
    requires u !in gone && HasUid(rs, u)
    ensures HasUid(Keep(gone, rs), u)
  {
    var i :| 0 <= i < |rs| && rs[i].uid == u;
    KeepMembers(gone, rs, rs[i]);
    assert rs[i] in Keep(gone, rs);
  }

  lemma {:induction false} KeepStands(gone: set<nat>, rs: seq<Record>, u: nat, v: nat)
    requires u !in gone && v !in gone && StandsBefore(rs, u, v)
    ensures StandsBefore(Keep(gone, rs), u, v)
  {
    var p, q :| 0 <= p < q < |rs| && rs[p].uid == u && rs[q].uid == v;
    var head, rest := if rs[0].uid in gone then [] else [rs[0]], Keep(gone, rs[1..]);
    if p == 0 {
      assert rs[1..][q - 1].uid == v;
      KeepHas(gone, rs[1..], v);
      var k :| 0 <= k < |rest| && rest[k].uid == v;
      assert (head + rest)[0].uid == u && (head + rest)[k + 1].uid == v;
    } else {
      assert rs[1..][p - 1].uid == u && rs[1..][q - 1].uid == v;
      KeepStands(gone, rs[1..], u, v);
      var a, b :| 0 <= a < b < |rest| && rest[a].uid == u && rest[b].uid == v;
      assert (head + rest)[|head| + a].uid == u && (head + rest)[|head| + b].uid == v;
    }
  }

  lemma HappenStands(mail: seq<Record>, c: Change, names: seq<string>, u: nat, v: nat)
    requires c != Expunged(u) && c != Expunged(v) && StandsBefore(mail, u, v)
    ensures StandsBefore(Happen(mail, c, names), u, v)
  {
    var after := Happen(mail, c, names);
    if c.Expunged? {
      KeepStands({c.uid}, mail, u, v);
    } else {
      var p, q :| 0 <= p < q < |mail| && mail[p].uid == u && mail[q].uid == v;
      assert after[p].uid == u && after[q].uid == v;
    }
  }

  /** Messages stand in the order they were appended. */
  lemma {:induction false} MailInOrder(h: seq<Change>, i: nat, j: nat, names: seq<string>)
    requires Orderly(h) && i < j < |h| && h[i].Appended? && h[j].Appended?
    requires !Expunges(h, h[i].uid) && !Expunges(h, h[j].uid)
    ensures StandsBefore(Mail(h, names), h[i].uid, h[j].uid)
    decreases |h|
  {
    var n := |h| - 1;
    var front, u, v := h[..n], h[i].uid, h[j].uid;
    OrderlyPrefix(h, n);
    assert h == front + [h[n]];
    assert front[i] == h[i] && !Expunges(front, u);
    if j == n {
      MailHas(front, names, u);
      var p :| 0 <= p < |Mail(front, names)| && Mail(front, names)[p].uid == u;
      assert Mail(h, names)[p].uid == u && Mail(h, names)[|Mail(front, names)|].uid == v;
    } else {
      assert front[j] == h[j];
      MailInOrder(front, i, j, names);
      HappenStands(Mail(front, names), h[n], names, u, v);
    }
  }

  // ---------------------------------------------------------------- the overlap

  /** The changes that name a uid. */
  function Of(cs: seq<Change>, u: nat): seq<Change> {
    if cs == [] then []
    else
      var c := cs[|cs| - 1];
      Of(cs[..|cs| - 1], u) + if c.uid == u then [c] else []
  }

  lemma {:induction false} OfNone(cs: seq<Change>, u: nat)
    requires !Names(cs, u)
    ensures Of(cs, u) == []
  {
    if cs != [] {
      assert cs[|cs| - 1].uid != u;
      assert forall i :: 0 <= i < |cs| - 1 ==> cs[..|cs| - 1][i] == cs[i];
      OfNone(cs[..|cs| - 1], u);
    }
  }

  lemma EditOneMore(r: Record, cs: seq<Change>, c: Change, names: seq<string>)
    ensures EditAll(r, cs + [c], names) == Edit(EditAll(r, cs, names), c, names)
  {
    assert (cs + [c])[..|cs|] == cs;
  }

  lemma OfLast(cs: seq<Change>, c: Change, u: nat)
    ensures Of(cs + [c], u) == if c.uid == u then Of(cs, u) + [c] else Of(cs, u)
  {
    assert (cs + [c])[..|cs|] == cs;
  }

  lemma OfOneMore(h: seq<Change>, k: nat, j: nat, u: nat)
    requires k <= j < |h|
    ensures Of(h[k..j + 1], u) == if h[j].uid == u then Of(h[k..j], u) + [h[j]] else Of(h[k..j], u)
  {
    assert h[k..j + 1] == h[k..j] + [h[j]];
    OfLast(h[k..j], h[j], u);
  }

  /** Where a record comes from: the message just appended, or one that was there. */
  lemma HappenFrom(before: seq<Record>, c: Change, names: seq<string>, r: Record) returns (q: Record)
    requires r in Happen(before, c, names)
    ensures q.uid == r.uid
    ensures q in before || (c.Appended? && q.uid == c.uid && q == r)
    ensures r == if c.uid == q.uid then Edit(q, c, names) else q
  {
    q := r;
    if c.Expunged? {
      KeepMembers({c.uid}, before, r);
    } else if !c.Appended? {
      var i :| 0 <= i < |before| && EditIn(before, c, names)[i] == r;
      q := before[i];
    }
  }

  lemma NoneSince(h: seq<Change>, k: nat, j: nat, r: Record, names: seq<string>)
    requires Orderly(h) && k <= j < |h| && h[j].Appended? && r.uid == h[j].uid
    ensures EditAll(r, Of(h[k..j], r.uid), names) == r
  {
    NewlyNamed(h, k, j);
    OfNone(h[k..j], r.uid);
  }

  /** A message's record is what the changes since any earlier moment made of some record. */
  lemma {:induction false} RecordSince(h: seq<Change>, k: nat, m: nat, names: seq<string>, r: Record)
    returns (x: Record)
    requires Orderly(h) && k <= m <= |h| && r in Mail(h[..m], names)
    ensures r == EditAll(x, Of(h[k..m], r.uid), names)
    decreases m
  {
    if m == k {
      x := r;
      assert h[k..m] == [];
    } else {
      var c, before := h[m - 1], Mail(h[..m - 1], names);
      assert h[..m][..m - 1] == h[..m - 1];
      var q := HappenFrom(before, c, names, r);
      if q in before {
        x := RecordSince(h, k, m - 1, names, q);
      } else {
        x := q;
        NoneSince(h, k, m - 1, q, names);
      }
      OfOneMore(h, k, m - 1, r.uid);
      EditOneMore(x, Of(h[k..m - 1], r.uid), c, names);
    }
  }

  lemma NewlyNamed(h: seq<Change>, k: nat, j: nat)
    requires Orderly(h) && k <= j < |h| && h[j].Appended?
    ensures !Names(h[k..j], h[j].uid)
  {
    forall i | 0 <= i < |h[k..j]|
      ensures h[k..j][i].uid != h[j].uid
    {
      assert h[k..j][i] == h[k + i];
    }
  }

  /** The base's records, each edited by what the replay has come past. */
  ghost predicate Replayed(base: seq<Record>, out: seq<Record>, cs: seq<Change>, names: seq<string>) {
    && |base| <= |out|
    && forall i :: 0 <= i < |base| ==> out[i] == EditAll(base[i], Of(cs, base[i].uid), names)
  }

  /** What the replay of a stretch the base has already absorbed looks like. */
  ghost predicate Replaying(base: seq<Record>, f: Folding, cs: seq<Change>, names: seq<string>) {
    && DistinctUids(f.out) && Replayed(base, f.out, cs, names)
    && (forall i :: |base| <= i < |f.out| ==> Appends(cs, f.out[i].uid))
    && (forall u :: u in f.gone <==> Expunges(cs, u))
  }

  lemma ReplayStep(base: seq<Record>, f: Folding, cs: seq<Change>, c: Change, names: seq<string>)
    requires Replaying(base, f, cs, names)
    requires c.Appended? ==> !Names(cs, c.uid)
    ensures Replaying(base, Step(f, c, names), cs + [c], names)
  {
    var g, all := Step(f, c, names), cs + [c];
    StepDistinct(f, c, names);
    forall u ensures Appends(all, u) <==> Appends(cs, u) || (c.Appended? && c.uid == u) { AppendsLast(cs, c, u); }
    ReplayedStep(base, f, cs, c, names);
    forall u
      ensures u in g.gone <==> Expunges(all, u)
    {
      assert Expunges(all, u) <==> Expunges(cs, u) || c == Expunged(u);
      if c.Appended? && Expunges(cs, u) {
        var i :| 0 <= i < |cs| && cs[i] == Expunged(u);
        assert u != c.uid;
      }
    }
    if !c.Appended? && !c.Expunged? { EditAt(f, c, names); }
  }

  lemma ReplayedStep(base: seq<Record>, f: Folding, cs: seq<Change>, c: Change, names: seq<string>)
    requires DistinctUids(f.out) && Replayed(base, f.out, cs, names)
    ensures Replayed(base, Step(f, c, names).out, cs + [c], names)
  {
    var out := Step(f, c, names).out;
    if !c.Appended? && !c.Expunged? { EditAt(f, c, names); }
    forall i | 0 <= i < |base|
      ensures out[i] == EditAll(base[i], Of(cs + [c], base[i].uid), names)
    {
      OfLast(cs, c, base[i].uid);
      if c.uid == base[i].uid {
        EditOneMore(base[i], Of(cs, base[i].uid), c, names);
      }
    }
  }

  lemma FoldSlice(f: Folding, h: seq<Change>, k: nat, j: nat, names: seq<string>)
    requires k <= j < |h|
    ensures h[k..j + 1] == h[k..j] + [h[j]]
    ensures Fold(f, h[k..j + 1], names) == Step(Fold(f, h[k..j], names), h[j], names)
  {
    assert h[k..j + 1][..j - k] == h[k..j];
  }

  lemma MailSlice(h: seq<Change>, j: nat, names: seq<string>)
    requires j < |h|
    ensures Mail(h[..j + 1], names) == Happen(Mail(h[..j], names), h[j], names)
  {
    assert h[..j + 1][..j] == h[..j];
  }

  lemma ReplayNothing(base: seq<Record>, names: seq<string>)
    requires DistinctUids(base)
    ensures Replaying(base, Folding(base, {}), [], names)
  {
  }

  /** Replaying any orderly changes over a base. */
  lemma {:induction false} ReplayAll(base: seq<Record>, cs: seq<Change>, names: seq<string>)
    requires Orderly(cs) && DistinctUids(base)
    ensures Replaying(base, Fold(Folding(base, {}), cs, names), cs, names)
  {
    if cs == [] {
      ReplayNothing(base, names);
    } else {
      var n := |cs| - 1;
      OrderlyPrefix(cs, n);
      ReplayAll(base, cs[..n], names);
      ReplayStep(base, Fold(Folding(base, {}), cs[..n], names), cs[..n], cs[n], names);
      assert cs == cs[..n] + [cs[n]];
    }
  }

  lemma OrderlySlice(h: seq<Change>, k: nat, m: nat)
    requires Orderly(h) && k <= m <= |h|
    ensures Orderly(h[k..m])
  {
    forall i, j | 0 <= i < j < m - k && h[k..m][j].Appended?
      ensures h[k..m][i].uid != h[k..m][j].uid
    {
      assert h[k..m][i] == h[k + i] && h[k..m][j] == h[k + j];
    }
  }

  ghost predicate Alike(a: seq<Record>, b: seq<Record>) {
    |a| == |b| && forall i :: 0 <= i < |a| ==> SameRecord(a[i], b[i])
  }

  lemma FrontSurvives(f: Folding, n: nat)
    requires n <= |f.out|
    requires forall i :: 0 <= i < n ==> f.out[i].uid !in f.gone
    requires forall i :: n <= i < |f.out| ==> f.out[i].uid in f.gone
    ensures Survivors(f) == f.out[..n]
  {
    KeepAll(f.gone, f.out[..n]);
    KeepNone(f.gone, f.out[n..]);
    KeepConcat(f.gone, f.out[..n], f.out[n..]);
    assert f.out == f.out[..n] + f.out[n..];
  }

  lemma KeptAgain(h: seq<Change>, k: nat, m: nat, names: seq<string>, f: Folding, i: nat)
    requires Orderly(h) && k <= m <= |h|
    requires Replaying(Mail(h[..m], names), f, h[k..m], names) && i < |Mail(h[..m], names)|
    ensures i < |f.out| && f.out[i].uid !in f.gone && SameRecord(f.out[i], Mail(h[..m], names)[i])
  {
    var r := Mail(h[..m], names)[i];
    StillThere(h, k, m, names, i);
    var x := RecordSince(h, k, m, names, r);
    EditTwice(x, Of(h[k..m], r.uid), names);
  }

  /**
   * What survives the replay of h[k..m] over a base that holds h[..m] is the base again, but for the
   * order of keywords.
   */
  lemma BaseAgain(h: seq<Change>, k: nat, m: nat, names: seq<string>)
    requires Orderly(h) && k <= m <= |h|
    ensures Alike(Survivors(Fold(Folding(Mail(h[..m], names), {}), h[k..m], names)), Mail(h[..m], names))
  {
    var base := Mail(h[..m], names);
    var f := Fold(Folding(base, {}), h[k..m], names);
    OrderlyPrefix(h, m);
    MailDistinct(h[..m], names);
    OrderlySlice(h, k, m);
    ReplayAll(base, h[k..m], names);
    forall i | 0 <= i < |base|
      ensures f.out[i].uid !in f.gone && SameRecord(f.out[i], base[i])
    {
      KeptAgain(h, k, m, names, f, i);
    }
    forall i | |base| <= i < |f.out| ensures f.out[i].uid in f.gone { GoneAgain(h, k, m, names, f, i); }
    FrontSurvives(f, |base|);
  }

  lemma SliceExpunges(h: seq<Change>, k: nat, m: nat, u: nat)
    requires k <= m <= |h| && Expunges(h[k..m], u)
    ensures Expunges(h[..m], u)
  {
    var i :| 0 <= i < |h[k..m]| && h[k..m][i] == Expunged(u);
    assert h[..m][k + i] == Expunged(u);
  }

  lemma StillThere(h: seq<Change>, k: nat, m: nat, names: seq<string>, i: nat)
    requires Orderly(h) && k <= m <= |h| && i < |Mail(h[..m], names)|
    ensures !Expunges(h[k..m], Mail(h[..m], names)[i].uid)
  {
    var u := Mail(h[..m], names)[i].uid;
    OrderlyPrefix(h, m);
    MailHas(h[..m], names, u);
    if Expunges(h[k..m], u) { SliceExpunges(h, k, m, u); }
  }

  /** A message the replay appends again is one the base had lost, and the replay expunges it again. */
  lemma GoneAgain(h: seq<Change>, k: nat, m: nat, names: seq<string>, f: Folding, i: nat)
    requires Orderly(h) && k <= m <= |h|
    requires Replaying(Mail(h[..m], names), f, h[k..m], names) && |Mail(h[..m], names)| <= i < |f.out|
    ensures f.out[i].uid in f.gone
  {
    var base, u := Mail(h[..m], names), f.out[i].uid;
    forall j | 0 <= j < |base|
      ensures base[j].uid != u
    {
      assert f.out[j].uid == base[j].uid;
    }
    var a :| 0 <= a < |h[k..m]| && h[k..m][a].Appended? && h[k..m][a].uid == u;
    assert h[k + a] == h[k..m][a] && h[..m][k + a] == h[k + a];
    OrderlyPrefix(h, m);
    MailHas(h[..m], names, u);
    assert Appends(h[..m], u);
    var e :| 0 <= e < |h[..m]| && h[..m][e] == Expunged(u);
    assert h[e] == Expunged(u) && e >= k + a;
    assert h[k..m][e - k] == Expunged(u);
  }

  lemma AlikeTail(a: seq<Record>, b: seq<Record>)
    requires Alike(a, b) && a != []
    ensures SameRecord(a[0], b[0]) && Alike(a[1..], b[1..])
  {
    forall i | 0 <= i < |a[1..]| ensures SameRecord(a[1..][i], b[1..][i]) { assert SameRecord(a[i + 1], b[i + 1]); }
  }

  lemma AlikeCons(x: Record, y: Record, a: seq<Record>, b: seq<Record>)
    requires SameRecord(x, y) && Alike(a, b)
    ensures Alike([x] + a, [y] + b)
  {
    forall i | 0 <= i < |[x] + a|
      ensures SameRecord(([x] + a)[i], ([y] + b)[i])
    {
      if i > 0 { assert SameRecord(a[i - 1], b[i - 1]); }
    }
  }

  lemma {:induction false} KeepAlike(gone: set<nat>, a: seq<Record>, b: seq<Record>)
    requires Alike(a, b)
    ensures Alike(Keep(gone, a), Keep(gone, b))
  {
    if a != [] {
      AlikeTail(a, b);
      KeepAlike(gone, a[1..], b[1..]);
      if a[0].uid in gone {
        assert Keep(gone, a) == Keep(gone, a[1..]) && Keep(gone, b) == Keep(gone, b[1..]);
      } else {
        AlikeCons(a[0], b[0], Keep(gone, a[1..]), Keep(gone, b[1..]));
      }
    }
  }

  lemma HappenAlike(a: seq<Record>, b: seq<Record>, c: Change, names: seq<string>)
    requires Alike(a, b)
    ensures Alike(Happen(a, c, names), Happen(b, c, names))
  {
    if c.Expunged? {
      KeepAlike({c.uid}, a, b);
    } else if !c.Appended? {
      forall i | 0 <= i < |a|
        ensures SameRecord(EditIn(a, c, names)[i], EditIn(b, c, names)[i])
      {
        assert SameRecord(a[i], b[i]);
        EditKeepsSame(a[i], b[i], c, names);
      }
    }
  }

  /**
   * The folder's own listing of the first m changes as a base, and the log re-read from any earlier
   * point.
   */
  lemma {:induction false} OverlapOfMail(h: seq<Change>, k: nat, m: nat, j: nat, names: seq<string>)
    requires Orderly(h) && k <= m <= j <= |h|
    ensures Alike(Apply(Mail(h[..m], names), h[k..j], names), Mail(h[..j], names))
    decreases j
  {
    if j == m {
      BaseAgain(h, k, m, names);
    } else {
      var start := Folding(Mail(h[..m], names), {});
      OverlapOfMail(h, k, m, j - 1, names);
      StillFresh(h, k, m, j - 1, names);
      StepAlike(Fold(start, h[k..j - 1], names), Mail(h[..j - 1], names), h[j - 1], names);
      FoldSlice(start, h, k, j - 1, names);
      MailSlice(h, j - 1, names);
    }
  }

  lemma StillFresh(h: seq<Change>, k: nat, m: nat, j: nat, names: seq<string>)
    requires Orderly(h) && k <= m <= j < |h|
    ensures var f := Fold(Folding(Mail(h[..m], names), {}), h[k..j], names);
            DistinctUids(f.out) && (h[j].Appended? ==> !HasUid(f.out, h[j].uid))
  {
    OrderlyPrefix(h, m);
    MailDistinct(h[..m], names);
    FoldUids(Folding(Mail(h[..m], names), {}), h[k..j], names, h[j].uid);
    if h[j].Appended? { StillNew(h, k, m, j, names); }
  }

  lemma StepAlike(f: Folding, mail: seq<Record>, c: Change, names: seq<string>)
    requires DistinctUids(f.out) && (c.Appended? ==> !HasUid(f.out, c.uid)) && Alike(Survivors(f), mail)
    ensures Alike(Survivors(Step(f, c, names)), Happen(mail, c, names))
  {
    SurvivorsStep(f, c, names);
    HappenAlike(Survivors(f), mail, c, names);
  }

  lemma StillNew(h: seq<Change>, k: nat, m: nat, j: nat, names: seq<string>)
    requires Orderly(h) && k <= m <= j < |h| && h[j].Appended?
    ensures !Names(h[k..j], h[j].uid) && !HasUid(Mail(h[..m], names), h[j].uid)
  {
    NewlyNamed(h, k, j);
    OrderlyPrefix(h, m);
    MailHas(h[..m], names, h[j].uid);
    forall i | 0 <= i < m
      ensures h[..m][i].uid != h[j].uid
    {
      assert h[..m][i] == h[i];
    }
  }

  // ---------------------------------------------------------------- bases in any keyword order

  lemma {:induction false} AtAlike(a: seq<Record>, b: seq<Record>, u: nat)
    requires Alike(a, b)
    ensures At(a, u) == At(b, u)
  {
    if a != [] {
      var n := |a| - 1;
      assert SameRecord(a[n], b[n]);
      forall i | 0 <= i < n ensures SameRecord(a[..n][i], b[..n][i]) { assert SameRecord(a[i], b[i]); }
      AtAlike(a[..n], b[..n], u);
    }
  }

  ghost predicate AlikeFoldings(f: Folding, g: Folding) {
    f.gone == g.gone && Alike(f.out, g.out)
  }

  lemma StepKeepsAlike(f: Folding, g: Folding, c: Change, names: seq<string>)
    requires AlikeFoldings(f, g)
    ensures AlikeFoldings(Step(f, c, names), Step(g, c, names))
  {
    AtAlike(f.out, g.out, c.uid);
    var a, b := Step(f, c, names).out, Step(g, c, names).out;
    forall i | 0 <= i < |a|
      ensures SameRecord(a[i], b[i])
    {
      if i < |f.out| {
        assert SameRecord(f.out[i], g.out[i]);
        EditKeepsSame(f.out[i], g.out[i], c, names);
      }
    }
  }

  lemma {:induction false} FoldKeepsAlike(f: Folding, g: Folding, cs: seq<Change>, names: seq<string>)
    requires AlikeFoldings(f, g)
    ensures AlikeFoldings(Fold(f, cs, names), Fold(g, cs, names))
  {
    if cs != [] {
      var n := |cs| - 1;
      FoldKeepsAlike(f, g, cs[..n], names);
      StepKeepsAlike(Fold(f, cs[..n], names), Fold(g, cs[..n], names), cs[n], names);
    }
  }

  lemma AlikeThrough(a: seq<Record>, b: seq<Record>, c: seq<Record>)
    requires Alike(a, b) && Alike(b, c)
    ensures Alike(a, c)
  {
    forall i | 0 <= i < |a| ensures SameRecord(a[i], c[i]) { assert SameRecord(a[i], b[i]) && SameRecord(b[i], c[i]); }
  }

  /**
   * A base that holds the first m changes, its keywords listed in any order, and a log re-read from
   * any earlier point give the folder, but for that order: repeated appends, edits and expunges
   * change nothing.
   */
  lemma OverlapIsHarmless(h: seq<Change>, k: nat, m: nat, j: nat, names: seq<string>, base: seq<Record>)
    requires Orderly(h) && k <= m <= j <= |h| && Alike(base, Mail(h[..m], names))
    ensures Alike(Apply(base, h[k..j], names), Mail(h[..j], names))
  {
    var mail, cs := Mail(h[..m], names), h[k..j];
    var f, g := Fold(Folding(base, {}), cs, names), Fold(Folding(mail, {}), cs, names);
    FoldKeepsAlike(Folding(base, {}), Folding(mail, {}), cs, names);
    KeepAlike(f.gone, f.out, g.out);
    OverlapOfMail(h, k, m, j, names);
    AlikeThrough(Apply(base, cs, names), Apply(mail, cs, names), Mail(h[..j], names));
  }

  // ---------------------------------------------------------------- reading a folder

  datatype OnDisk<T> = Absent | Unreadable | Corrupt | Present(value: T)

  /** What a log gives: the folder by the log alone, and the folder over its base. */
  datatype Log<T> = Log(fromStart: seq<T>, overBase: seq<T>)

  datatype FolderRead<T> = Indexed(records: seq<T>) | NoIndex | Broken

  /** The log over the base; the log alone while there is no base; the base alone when there is no log to be read. */
  function ReadIndex<T>(base: OnDisk<seq<T>>, log: OnDisk<Log<T>>): FolderRead<T> {
    match base
    case Absent =>
      (match log
       case Absent => NoIndex
       case Present(l) => Indexed(l.fromStart)
       case _ => Broken)
    case Present(records) =>
      (match log
       case Present(l) => Indexed(l.overBase)
       case Corrupt => Broken
       case _ => Indexed(records))
    case _ => Broken
  }

  /**
   * A folder with this history on disk: a base that holds the first m changes, keywords in whatever
   * order its table of names puts them, and a log that starts at change r and is re-read from change
   * k. Until the first base is written nothing has been rotated out of the log.
   */
  ghost predicate Holds(h: seq<Change>, r: nat, k: nat, m: nat, names: seq<string>,
                        base: OnDisk<seq<Record>>, log: OnDisk<Log<Record>>) {
    && Orderly(h) && r <= k <= m <= |h|
    && (base.Absent? ==> r == 0)
    && (base.Present? ==> Alike(base.value, Mail(h[..m], names)))
    && (log.Present? ==> log.value.fromStart == Apply([], h[r..], []))
    && (log.Present? && base.Present? ==> log.value.overBase == Apply(base.value, h[k..], names))
  }

  /** Both files, or the log alone, give the folder as it is now; a base without a readable log, as it was. */
  lemma ReadGivesFolder(h: seq<Change>, r: nat, k: nat, m: nat, names: seq<string>,
                        base: OnDisk<seq<Record>>, log: OnDisk<Log<Record>>)
    requires Holds(h, r, k, m, names, base, log)
    ensures var read := ReadIndex(base, log);
            && (base.Present? && log.Present? ==> read.Indexed? && Alike(read.records, Mail(h, names)))
            && (base.Absent? && log.Present? ==> read == Indexed(Mail(h, [])))
            && (base.Present? && (log.Absent? || log.Unreadable?) ==>
                  read.Indexed? && Alike(read.records, Mail(h[..m], names)))
            && (read.NoIndex? <==> base.Absent? && log.Absent?)
            && (read.Broken? <==> || base.Unreadable? || base.Corrupt?
                                  || log.Corrupt? || (base.Absent? && log.Unreadable?))
  {
    assert h[..|h|] == h && h[0..] == h && h[k..|h|] == h[k..];
    if base.Present? && log.Present? { OverlapIsHarmless(h, k, m, |h|, names, base.value); }
    if base.Absent? && log.Present? { ApplyIsMail(h, []); }
  }

  predicate MaskFree(h: seq<Change>) {
    forall i :: 0 <= i < |h| && h[i].ExtRecordSet? ==> h[i].name != "keywords"
  }

  /** With no keyword set by mask the table of names makes no difference. */
  lemma {:induction false} NamesUnused(h: seq<Change>, names: seq<string>)
    requires MaskFree(h)
    ensures Mail(h, names) == Mail(h, [])
  {
    if h != [] {
      var n := |h| - 1;
      var mail, c := Mail(h[..n], []), h[n];
      NamesUnused(h[..n], names);
      assert c.ExtRecordSet? ==> c.name != "keywords";
      assert forall q: Record :: Edit(q, c, names) == Edit(q, c, []);
      assert EditIn(mail, c, names) == EditIn(mail, c, []);
    }
  }

  /** So a folder reads the same before and after its first base is written. */
  lemma BaseMakesNoDifference(h: seq<Change>, k: nat, m: nat, names: seq<string>,
                              base: OnDisk<seq<Record>>, log: OnDisk<Log<Record>>)
    requires Holds(h, 0, k, m, names, base, log) && base.Present? && log.Present? && MaskFree(h)
    ensures ReadIndex(base, log).Indexed? && ReadIndex(Absent, log).Indexed?
    ensures Alike(ReadIndex(base, log).records, ReadIndex(Absent, log).records)
  {
    ReadGivesFolder(h, 0, k, m, names, base, log);
    ReadGivesFolder(h, 0, k, m, names, Absent, log);
    NamesUnused(h, names);
  }
}
