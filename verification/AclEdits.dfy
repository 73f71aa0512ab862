/** Editing one mailbox's ACL: collapsing duplicates, the three modify modes, and the owner's entries. */
module AclEdits {
  import opened Basics
  import opened Acl

  datatype Key = Key(id: Identifier, negative: bool)

  function KeyOf(e: Entry): Key { Key(e.id, e.negative) }

  /** What the list says about a key: its last entry counts. */
  function Lookup(acl: ACL, k: Key): Option<string> {
    if acl == [] then None
    else if KeyOf(acl[|acl| - 1]) == k then Some(acl[|acl| - 1].rights)
    else Lookup(acl[..|acl| - 1], k)
  }

  /** The keys in the order of their first entries. */
  function Keys(acl: ACL): seq<Key> {
    if acl == [] then []
    else
      var ks, k := Keys(acl[..|acl| - 1]), KeyOf(acl[|acl| - 1]);
      if k in ks then ks else ks + [k]
  }

  predicate Distinct(ks: seq<Key>) {
    forall i, j :: 0 <= i < j < |ks| ==> ks[i] != ks[j]
  }

  function Restate(acl: ACL, k: Key): Entry {
    Entry(k.id, if Lookup(acl, k).Some? then Lookup(acl, k).value else "", k.negative)
  }

  /** One entry per key: the first one's position, the last one's rights. */
  function Collapsed(acl: ACL): (r: ACL)
    ensures |r| == |Keys(acl)|
    ensures forall i :: 0 <= i < |r| ==> r[i] == Restate(acl, Keys(acl)[i])
  {
    seq(|Keys(acl)|, i requires 0 <= i < |Keys(acl)| => Restate(acl, Keys(acl)[i]))
  }

  lemma {:induction false} KeyIffLookup(acl: ACL, k: Key)
    ensures k in Keys(acl) <==> Lookup(acl, k).Some?
  {
    if acl != [] {
      KeyIffLookup(acl[..|acl| - 1], k);
    }
  }

  lemma {:induction false} KeysDistinct(acl: ACL)
    ensures Distinct(Keys(acl))
  {
    if acl != [] {
      KeysDistinct(acl[..|acl| - 1]);
    }
  }

  lemma LookupSnoc(acl: ACL, e: Entry, k: Key)
    ensures Lookup(acl + [e], k) == if KeyOf(e) == k then Some(e.rights) else Lookup(acl, k)
    ensures Keys(acl + [e]) == if KeyOf(e) in Keys(acl) then Keys(acl) else Keys(acl) + [KeyOf(e)]
  {
    assert (acl + [e])[..|acl|] == acl;
  }

  lemma CollapseSeen(acl: ACL, e: Entry, i: nat)
    requires i < |Keys(acl)| && Keys(acl)[i] == KeyOf(e)
    ensures Collapsed(acl + [e]) == Collapsed(acl)[i := e]
  {
    KeysDistinct(acl);
    LookupSnoc(acl, e, KeyOf(e));
    var r := Collapsed(acl + [e]);
    forall j | 0 <= j < |r|
      ensures r[j] == Collapsed(acl)[i := e][j]
    {
      LookupSnoc(acl, e, Keys(acl)[j]);
    }
  }

  lemma CollapseNew(acl: ACL, e: Entry)
    requires KeyOf(e) !in Keys(acl)
    ensures Collapsed(acl + [e]) == Collapsed(acl) + [e]
  {
    LookupSnoc(acl, e, KeyOf(e));
    var r := Collapsed(acl + [e]);
    forall j | 0 <= j < |r|
      ensures r[j] == (Collapsed(acl) + [e])[j]
    {
      LookupSnoc(acl, e, Keys(acl + [e])[j]);
    }
  }

  /** The position kept for every key already written out. */
  ghost predicate Places(at: map<Key, nat>, ks: seq<Key>) {
    && (forall k :: k in at <==> k in ks)
    && (forall k :: k in at ==> at[k] < |ks| && ks[at[k]] == k)
  }

  lemma PlacesGrow(at: map<Key, nat>, ks: seq<Key>, k: Key)
    requires Places(at, ks)
    ensures k !in ks ==> Places(at[k := |ks|], ks + [k])
  {
  }

  method Collapse(acl: ACL) returns (out: ACL)
    ensures out == Collapsed(acl)
  {
    if |acl| < 2 {
      out := acl;
      CollapseStable(acl);
      return;
    }
    var at: map<Key, nat> := map[];
    out := [];
    for i := 0 to |acl|
      invariant out == Collapsed(acl[..i])
      invariant Places(at, Keys(acl[..i]))
    {
      var e := acl[i];
      assert acl[..i + 1] == acl[..i] + [e];
      var k := KeyOf(e);
      LookupSnoc(acl[..i], e, k);
      if k in at {
        CollapseSeen(acl[..i], e, at[k]);
        out := out[at[k] := out[at[k]].(rights := e.rights)];
      } else {
        CollapseNew(acl[..i], e);
        PlacesGrow(at, Keys(acl[..i]), k);
        at := at[k := |out|];
        out := out + [e];
      }
    }
    assert acl[..|acl|] == acl;
  }

  predicate OnePerKey(acl: ACL) {
    forall i, j :: 0 <= i < j < |acl| ==> KeyOf(acl[i]) != KeyOf(acl[j])
  }

  lemma CollapsedOnePerKey(acl: ACL)
    ensures OnePerKey(Collapsed(acl))
  {
    KeysDistinct(acl);
  }

  lemma {:induction false} LookupOnly(acl: ACL, i: nat)
    requires OnePerKey(acl) && i < |acl|
    ensures Lookup(acl, KeyOf(acl[i])) == Some(acl[i].rights)
  {
    if i < |acl| - 1 {
      LookupOnly(acl[..|acl| - 1], i);
    }
  }

  lemma {:induction false} LookupAbsent(acl: ACL, k: Key)
    requires forall i :: 0 <= i < |acl| ==> KeyOf(acl[i]) != k
    ensures Lookup(acl, k) == None
  {
    if acl != [] {
      LookupAbsent(acl[..|acl| - 1], k);
    }
  }

  /** Collapsing changes what no key is granted. */
  lemma CollapseKeepsLookup(acl: ACL, k: Key)
    ensures Lookup(Collapsed(acl), k) == Lookup(acl, k)
  {
    CollapsedOnePerKey(acl);
    KeyIffLookup(acl, k);
    if k in Keys(acl) {
      var i :| 0 <= i < |Keys(acl)| && Keys(acl)[i] == k;
      LookupOnly(Collapsed(acl), i);
    } else {
      LookupAbsent(Collapsed(acl), k);
    }
  }

  lemma {:induction false} CollapseStable(acl: ACL)
    requires OnePerKey(acl)
    ensures Collapsed(acl) == acl
  {
    if acl != [] {
      var front, e := acl[..|acl| - 1], acl[|acl| - 1];
      CollapseStable(front);
      assert acl == front + [e];
      LookupAbsent(front, KeyOf(e));
      KeyIffLookup(front, KeyOf(e));
      CollapseNew(front, e);
    }
  }

  // ---------------------------------------------------------------- one entry changed

  datatype Mode = Replace | Add | Remove

  function ModeOf(word: string): Option<Mode> {
    if word == "" || word == "replace" then Some(Replace)
    else if word == "add" then Some(Add)
    else if word == "remove" then Some(Remove)
    else None
  }

  function Union(a: string, b: string): string {
    if Normal(a + b).Some? then Normal(a + b).value else ""
  }

  function Minus(a: string, b: string): string {
    if a == [] then [] else (if a[0] in b then [] else [a[0]]) + Minus(a[1..], b)
  }

  /** What the modify modes mean for the rights of the key they name (section 3.1 of RFC 4314). */
  function Changed(current: Option<string>, mode: Mode, rights: string): Option<string> {
    match mode
    case Replace => if rights == "" then None else Some(rights)
    case Add => Some(if current.Some? then Union(current.value, rights) else rights)
    case Remove =>
      if current.None? || Minus(current.value, rights) == "" then None
      else Some(Minus(current.value, rights))
  }

  /** Added rights are the letters of both, and nothing else. */
  lemma UnionLetters(a: string, b: string, c: char)
    requires Canonical(a) && Canonical(b)
    ensures Canonical(Union(a, b)) && (c in Union(a, b) <==> c in a || c in b)
  {
    CanonicalLetters(a);
    CanonicalLetters(b);
    assert Recognised(a + b);
    assert Letters(a + b) == Letters(a) + Letters(b);
    NormalIsCanonical(a + b);
    NormalLetters(a + b, c);
  }

  lemma {:induction false} MinusSpelled(have: set<char>, left: set<char>, alphabet: string, b: string)
    requires forall c :: c in left <==> c in have && c !in b
    ensures Minus(Spell(have, alphabet), b) == Spell(left, alphabet)
  {
    if alphabet != [] {
      var rest := Spell(have, alphabet[1..]);
      MinusSpelled(have, left, alphabet[1..], b);
      if alphabet[0] in have {
        assert ([alphabet[0]] + rest)[1..] == rest;
      } else {
        assert [] + rest == rest;
      }
    }
  }

  lemma SpelledCanonical(have: set<char>)
    requires forall c :: c in have ==> c in ALL_RIGHTS && Expand(c) == {c}
    ensures Canonical(Spell(have, ALL_RIGHTS))
  {
    var s := Spell(have, ALL_RIGHTS);
    forall c ensures c in s <==> c in have { SpellMembers(have, ALL_RIGHTS, c); }
    forall c ensures c in Letters(s) <==> c in have {
      if c in have { assert c in Expand(c); }
    }
    assert Letters(s) == have;
  }

  lemma MinusCanonical(a: string, b: string)
    requires Canonical(a)
    ensures Canonical(Minus(a, b))
  {
    var kept := set c | c in Letters(a) && c !in b;
    MinusSpelled(Letters(a), kept, ALL_RIGHTS, b);
    forall c | c in kept
      ensures c in ALL_RIGHTS && Expand(c) == {c}
    {
      NormalLetters(a, c);
      SpellMembers(Letters(a), ALL_RIGHTS, c);
    }
    SpelledCanonical(kept);
  }

  method FindEntry(acl: ACL, k: Key) returns (i: nat)
    ensures i <= |acl|
    ensures i < |acl| ==> KeyOf(acl[i]) == k
    ensures forall j :: 0 <= j < i ==> KeyOf(acl[j]) != k
  {
    i := 0;
    while i < |acl| && KeyOf(acl[i]) != k
      invariant i <= |acl|
      invariant forall j :: 0 <= j < i ==> KeyOf(acl[j]) != k
    {
      i := i + 1;
    }
  }

  ghost predicate Edited(before: ACL, after: ACL, k: Key, rights: Option<string>) {
    && OnePerKey(after)
    && Lookup(after, k) == rights
    && forall other :: other != k ==> Lookup(after, other) == Lookup(before, other)
  }

  lemma OnePerKeyWithout(acl: ACL, i: nat)
    requires OnePerKey(acl) && i < |acl|
    ensures OnePerKey(acl[..i] + acl[i + 1..])
  {
  }

  lemma {:induction false} LookupWithout(acl: ACL, i: nat, k: Key)
    requires OnePerKey(acl) && i < |acl|
    ensures Lookup(acl[..i] + acl[i + 1..], k) == if k == KeyOf(acl[i]) then None else Lookup(acl, k)
  {
    var rest := acl[..i] + acl[i + 1..];
    if k == KeyOf(acl[i]) {
      LookupAbsent(rest, k);
    } else if i < |acl| - 1 {
      var front := acl[..|acl| - 1];
      LookupWithout(front, i, k);
      assert rest[..|rest| - 1] == front[..i] + front[i + 1..];
      assert rest[|rest| - 1] == acl[|acl| - 1];
    } else {
      assert rest == acl[..i];
    }
  }

  lemma {:induction false} LookupUpdate(acl: ACL, i: nat, rights: string, k: Key)
    requires OnePerKey(acl) && i < |acl|
    ensures OnePerKey(acl[i := acl[i].(rights := rights)])
    ensures Lookup(acl[i := acl[i].(rights := rights)], k)
         == if k == KeyOf(acl[i]) then Some(rights) else Lookup(acl, k)
  {
    var updated := acl[i := acl[i].(rights := rights)];
    if i < |acl| - 1 {
      var front := acl[..|acl| - 1];
      LookupUpdate(front, i, rights, k);
      assert updated[..|acl| - 1] == front[i := front[i].(rights := rights)];
    } else {
      assert updated[..i] == acl[..i];
    }
  }

  lemma EntryDropped(acl: ACL, i: nat)
    requires OnePerKey(acl) && i < |acl|
    ensures Edited(acl, acl[..i] + acl[i + 1..], KeyOf(acl[i]), None)
  {
    OnePerKeyWithout(acl, i);
    var rest := acl[..i] + acl[i + 1..];
    LookupWithout(acl, i, KeyOf(acl[i]));
    forall k | k != KeyOf(acl[i])
      ensures Lookup(rest, k) == Lookup(acl, k)
    {
      LookupWithout(acl, i, k);
    }
  }

  lemma EntryChanged(acl: ACL, i: nat, rights: string)
    requires OnePerKey(acl) && i < |acl|
    ensures Edited(acl, acl[i := acl[i].(rights := rights)], KeyOf(acl[i]), Some(rights))
  {
    LookupUpdate(acl, i, rights, KeyOf(acl[i]));
    forall k
      ensures Lookup(acl[i := acl[i].(rights := rights)], k)
           == if k == KeyOf(acl[i]) then Some(rights) else Lookup(acl, k)
    {
      LookupUpdate(acl, i, rights, k);
    }
  }

  lemma EntryAdded(acl: ACL, e: Entry)
    requires OnePerKey(acl) && forall i :: 0 <= i < |acl| ==> KeyOf(acl[i]) != KeyOf(e)
    ensures Edited(acl, acl + [e], KeyOf(e), Some(e.rights))
  {
    assert OnePerKey(acl + [e]);
    forall k
      ensures Lookup(acl + [e], k) == if k == KeyOf(e) then Some(e.rights) else Lookup(acl, k)
    {
      LookupSnoc(acl, e, k);
    }
  }

  /** The one transform every ACL edit goes through, on an ACL as it is read from its file. */
  method ApplyEntry(acl: ACL, k: Key, mode: Mode, rights: string) returns (after: ACL)
    requires OnePerKey(acl)
    ensures Edited(acl, after, k, Changed(Lookup(acl, k), mode, rights))
  {
    var i := FindEntry(acl, k);
    after := acl;
    if i < |acl| {
      LookupOnly(acl, i);
      var changed := match mode
        case Replace => rights
        case Add => Union(acl[i].rights, rights)
        case Remove => Minus(acl[i].rights, rights);
      if (mode.Replace? || mode.Remove?) && changed == "" {
        EntryDropped(acl, i);
        after := acl[..i] + acl[i + 1..];
      } else {
        EntryChanged(acl, i, changed);
        after := acl[i := acl[i].(rights := changed)];
      }
    } else {
      LookupAbsent(acl, k);
      if mode.Add? || (mode.Replace? && rights != "") {
        EntryAdded(acl, Entry(k.id, rights, k.negative));
        after := acl + [Entry(k.id, rights, k.negative)];
      }
    }
    CollapseStable(after);
    after := Collapse(after);
  }

  // ---------------------------------------------------------------- requests

  /** The mailbox owner, by keyword or by name; a namespace without an owner has the empty name. */
  predicate NamesOwner(id: Identifier, owner: string) {
    id.Owner? || (owner != "" && id == User(owner))
  }

  datatype Request =
    | Set(wire: seq<WireEntry>)
    | Apply(identifier: string, rights: string, mode: string)

  function Bare(identifier: string): string {
    if identifier != "" && identifier[0] == '-' then identifier[1..] else identifier
  }

  predicate Accepted(owner: string, r: Request) {
    match r
    case Set(wire) =>
      Decode(wire).Some? && forall e :: e in Decode(wire).value ==> !NamesOwner(e.id, owner)
    case Apply(identifier, rights, mode) =>
      && identifier != "" && ParseAdmin(Bare(identifier)).Some? && Normal(rights).Some? && ModeOf(mode).Some?
      && !(NamesOwner(ParseAdmin(Bare(identifier)).value, owner)
           && (ModeOf(mode) == Some(Add) || (ModeOf(mode) == Some(Replace) && Normal(rights).value != "")))
  }

  /** What a request does to the ACL on file; a refused one does nothing. */
  ghost predicate Step(owner: string, before: ACL, r: Request, after: ACL) {
    if !Accepted(owner, r) then after == before
    else match r
         case Set(wire) => after == Collapsed(Decode(wire).value)
         case Apply(identifier, rights, mode) =>
           var k := Key(ParseAdmin(Bare(identifier)).value, identifier[0] == '-');
           Edited(before, after, k, Changed(Lookup(before, k), ModeOf(mode).value, Normal(rights).value))
  }

  /** The list grants, or withholds, this letter by this key. */
  ghost predicate Holds(acl: ACL, k: Key, c: char) {
    Lookup(acl, k).Some? && c in Lookup(acl, k).value
  }

  /** What a modify request comes to, letter by letter, for the key it names; no other key changes. */
  ghost predicate AppliedAs(before: ACL, after: ACL, k: Key, mode: string, rights: string) {
    && mode in {"", "replace", "add", "remove"}
    && (forall other :: other != k ==> Lookup(after, other) == Lookup(before, other))
    && (mode == "add" ==>
          && Lookup(after, k).Some?
          && forall c :: Holds(after, k, c) <==> Holds(before, k, c) || c in Letters(rights))
    && (mode == "remove" ==>
          && (forall c :: Holds(after, k, c) <==> Holds(before, k, c) && c !in Letters(rights))
          && (Lookup(after, k).None? <==> forall c :: Holds(before, k, c) ==> c in Letters(rights)))
    && (mode in {"", "replace"} ==>
          && (forall c :: Holds(after, k, c) <==> c in Letters(rights))
          && (Lookup(after, k).None? <==> rights == ""))
  }

  lemma {:induction false} LookupCanonical(acl: ACL, k: Key)
    requires ValidACL(acl) && Lookup(acl, k).Some?
    ensures Canonical(Lookup(acl, k).value)
  {
    assert acl[|acl| - 1] in acl;
    if KeyOf(acl[|acl| - 1]) != k { LookupCanonical(acl[..|acl| - 1], k); }
  }

  lemma NormalEmptyIff(rights: string)
    requires Normal(rights).Some?
    ensures Normal(rights).value == "" <==> rights == ""
  {
    if rights != "" {
      var c := rights[0];
      assert c in rights;
      var r :| r in Expand(c);
      NormalLetters(rights, r);
      assert r in Letters(rights);
    } else if Normal(rights).value != "" {
      NormalLetters(rights, Normal(rights).value[0]);
    }
  }

  lemma AddedAs(before: ACL, after: ACL, k: Key, asked: string, c: char)
    requires ValidACL(before) && Canonical(asked) && Edited(before, after, k, Changed(Lookup(before, k), Add, asked))
    ensures Holds(after, k, c) <==> Holds(before, k, c) || c in asked
  {
    if Lookup(before, k).Some? {
      LookupCanonical(before, k);
      UnionLetters(Lookup(before, k).value, asked, c);
    }
  }

  lemma RemovedAs(before: ACL, after: ACL, k: Key, asked: string, c: char)
    requires Edited(before, after, k, Changed(Lookup(before, k), Remove, asked))
    ensures Holds(after, k, c) <==> Holds(before, k, c) && c !in asked
  {
    if Lookup(before, k).Some? {
      MinusMembers(Lookup(before, k).value, asked, c);
    }
  }

  lemma RemovedEntirelyIff(before: ACL, after: ACL, k: Key, asked: string)
    requires Edited(before, after, k, Changed(Lookup(before, k), Remove, asked))
    ensures Lookup(after, k).None? <==> forall c :: Holds(before, k, c) ==> c in asked
  {
    if Lookup(before, k).Some? {
      var have := Lookup(before, k).value;
      if forall c :: Holds(before, k, c) ==> c in asked {
        assert forall c :: c in have ==> Holds(before, k, c);
        MinusAll(have, asked);
      } else if Minus(have, asked) == "" {
        var c :| Holds(before, k, c) && c !in asked;
        MinusMembers(have, asked, c);
      }
    }
  }

  /** Every accepted request does what its mode word says, on every list a file can hold. */
  lemma AcceptedApplies(owner: string, before: ACL, after: ACL, identifier: string, rights: string, mode: string)
    requires ValidACL(before) && Accepted(owner, Apply(identifier, rights, mode))
    requires Step(owner, before, Apply(identifier, rights, mode), after)
    ensures AppliedAs(before, after, Key(ParseAdmin(Bare(identifier)).value, identifier[0] == '-'), mode, rights)
  {
    var k, asked := Key(ParseAdmin(Bare(identifier)).value, identifier[0] == '-'), Normal(rights).value;
    NormalIsCanonical(rights);
    NormalEmptyIff(rights);
    forall c ensures c in asked <==> c in Letters(rights) { NormalLetters(rights, c); }
    if mode == "add" {
      forall c ensures Holds(after, k, c) <==> Holds(before, k, c) || c in asked {
        AddedAs(before, after, k, asked, c);
      }
    } else if mode == "remove" {
      forall c ensures Holds(after, k, c) <==> Holds(before, k, c) && c !in asked {
        RemovedAs(before, after, k, asked, c);
      }
      RemovedEntirelyIff(before, after, k, asked);
    }
  }

  /** No entry naming the owner appears or gains a right. */
  ghost predicate OwnerNeverGains(owner: string, before: ACL, after: ACL) {
    forall k: Key :: NamesOwner(k.id, owner) && Lookup(after, k).Some? ==>
      Lookup(before, k).Some? && forall c :: c in Lookup(after, k).value ==> c in Lookup(before, k).value
  }

  lemma {:induction false} MinusMembers(a: string, b: string, c: char)
    ensures c in Minus(a, b) <==> c in a && c !in b
  {
    if a != [] {
      MinusMembers(a[1..], b, c);
      assert a == [a[0]] + a[1..];
    }
  }

  lemma {:induction false} LookupFromEntry(acl: ACL, k: Key)
    requires Lookup(acl, k).Some?
    ensures exists e :: e in acl && KeyOf(e) == k
  {
    if KeyOf(acl[|acl| - 1]) != k {
      LookupFromEntry(acl[..|acl| - 1], k);
    }
  }

  lemma StepNeverGains(owner: string, before: ACL, r: Request, after: ACL)
    requires Step(owner, before, r, after)
    ensures OwnerNeverGains(owner, before, after)
  {
    if Accepted(owner, r) {
      forall k: Key | NamesOwner(k.id, owner) && Lookup(after, k).Some?
        ensures Lookup(before, k).Some? && forall c :: c in Lookup(after, k).value ==> c in Lookup(before, k).value
      {
        if r.Set? {
          CollapseKeepsLookup(Decode(r.wire).value, k);
          LookupFromEntry(Decode(r.wire).value, k);
        } else {
          var named := Key(ParseAdmin(Bare(r.identifier)).value, r.identifier[0] == '-');
          if k == named {
            forall c { MinusMembers(Lookup(before, k).value, Normal(r.rights).value, c); }
          }
        }
      }
    }
  }

  /** Who the owner is: the keyword, and the user of that name where there is one; nobody may widen their rights. */
  lemma OwnerRefused(owner: string, other: string, rights: string)
    requires Valid(User(owner)) && Valid(User(other)) && owner != other && Normal(rights).Some?
    ensures !Accepted(owner, Apply("owner", rights, "add")) && !Accepted("", Apply("owner", rights, "add"))
    ensures !Accepted(owner, Apply("user=" + owner, rights, "add"))
    ensures !Accepted(owner, Apply("-user=" + owner, rights, "add"))
    ensures !Accepted(owner, Apply("user=" + owner, rights, "replace")) <==> rights != ""
    ensures Accepted(owner, Apply("user=" + owner, rights, "remove"))
    ensures Accepted(owner, Apply("user=" + other, rights, "add"))
    ensures Accepted("", Apply("user=" + other, rights, "add"))
    ensures Accepted(owner, Apply("anyone", rights, "replace"))
  {
    NormalEmptyIff(rights);
    ParseAdminText(Identifier.Owner);
    ParseAdminText(User(owner));
    ParseAdminText(User(other));
    ParseAdminText(Anyone);
    assert "owner"[0] == 'o' && "anyone"[0] == 'a';
    assert ("-user=" + owner)[1..] == "user=" + owner;
  }

  /** A list is accepted exactly if no entry of it names the owner, whatever its rights. */
  lemma SetAcceptedIff(owner: string, acl: ACL)
    requires ValidACL(acl)
    ensures Accepted(owner, Set(Encode(acl)))
       <==> forall e :: e in acl ==> e.id != Identifier.Owner && (owner == "" || e.id != User(owner))
  {
    WireRoundTrip(acl);
  }

  /** A run of requests and the ACL after each. */
  ghost predicate Run(owner: string, files: seq<ACL>, requests: seq<Request>) {
    && |files| == |requests| + 1
    && forall i :: 0 <= i < |requests| ==> Step(owner, files[i], requests[i], files[i + 1])
  }

  /** However long the run, the owner's entries only ever shrink. */
  lemma {:induction false} OwnerImmutable(owner: string, files: seq<ACL>, requests: seq<Request>)
    requires Run(owner, files, requests)
    ensures OwnerNeverGains(owner, files[0], files[|requests|])
    decreases |requests|
  {
    var n := |requests|;
    if n > 0 {
      OwnerImmutable(owner, files[..n], requests[..n - 1]);
      StepNeverGains(owner, files[n - 1], requests[n - 1], files[n]);
    }
  }

  lemma {:induction false} MinusAll(a: string, b: string)
    requires forall c :: c in a ==> c in b
    ensures Minus(a, b) == ""
  {
    if a != [] {
      MinusAll(a[1..], b);
    }
  }

  /** The wire form of a key. */
  function Named(k: Key): string { Sign(k.negative) + Text(k.id) }

  lemma NamedReadsBack(k: Key)
    requires Valid(k.id)
    ensures Named(k) != "" && ParseAdmin(Bare(Named(k))) == Some(k.id) && (Named(k)[0] == '-' <==> k.negative)
  {
    ParseAdminText(k.id);
    TextHasNoSign(k.id);
    assert Bare(Named(k)) == Text(k.id);
  }

  /** The request asks for this change to this key. */
  predicate Asks(r: Request, k: Key, mode: Mode, rights: string) {
    && r.Apply? && r.identifier == Named(k)
    && ModeOf(r.mode) == Some(mode) && Normal(r.rights) == Some(rights)
  }

  /**
   * An owner entry left over from before can always be taken away: by replacing it with nothing,
   * or by removing at least the rights it has. Neither request is refused.
   */
  lemma OwnerCanBeCleared(owner: string, before: ACL, after: ACL, k: Key, r: Request, mode: Mode, rights: string)
    requires NamesOwner(k.id, owner) && Valid(k.id) && Asks(r, k, mode, rights)
    requires (mode.Replace? && rights == "")
          || (mode.Remove? && Lookup(before, k).Some? && forall c :: c in Lookup(before, k).value ==> c in rights)
    requires Step(owner, before, r, after)
    ensures Accepted(owner, r) && Lookup(after, k) == None
  {
    NamedReadsBack(k);
    if mode.Remove? {
      MinusAll(Lookup(before, k).value, rights);
    }
  }
}
