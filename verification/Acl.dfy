/** ACL identifiers, rights and entries, and their forms on the admin wire (section 2 of RFC 4314). */
module Acl {
  import opened Basics

  // ---------------------------------------------------------------- rights

  const ALL_RIGHTS := "lrswipkxtea"

  /** The letters one input letter stands for; the two obsolete ones expand. */
  function Expand(c: char): set<char> {
    if c == 'c' then {'k'} else if c == 'd' then {'t', 'e'} else if c in ALL_RIGHTS then {c} else {}
  }

  predicate Recognised(s: string) {
    forall c :: c in s ==> Expand(c) != {}
  }

  function Letters(s: string): set<char> {
    set c, r | c in s && r in Expand(c) :: r
  }

  /** The letters of a set, in the order of a given alphabet. */
  function Spell(have: set<char>, alphabet: string): string {
    if alphabet == [] then []
    else (if alphabet[0] in have then [alphabet[0]] else []) + Spell(have, alphabet[1..])
  }

  function Normal(s: string): Option<string> {
    if Recognised(s) then Some(Spell(Letters(s), ALL_RIGHTS)) else None
  }

  /** Rights as every constructor produces them: deduplicated, in order, nothing obsolete. */
  predicate Canonical(rights: string) {
    Normal(rights) == Some(rights)
  }

  method CollectLetters(s: string) returns (ok: bool, have: set<char>)
    ensures ok <==> Recognised(s)
    ensures ok ==> have == Letters(s)
  {
    have := {};
    for i := 0 to |s|
      invariant Recognised(s[..i]) && have == Letters(s[..i])
    {
      LettersGrow(s, i);
      if s[i] == 'c' {
        have := have + {'k'};
      } else if s[i] == 'd' {
        have := have + {'t', 'e'};
      } else if s[i] in ALL_RIGHTS {
        have := have + {s[i]};
      } else {
        assert s[i] in s && Expand(s[i]) == {};
        return false, have;
      }
      assert s[..i + 1] == s[..i] + [s[i]];
    }
    assert s[..|s|] == s;
    ok := true;
  }

  method SpellOut(have: set<char>, alphabet: string) returns (spelled: string)
    ensures spelled == Spell(have, alphabet)
  {
    spelled := "";
    for i := 0 to |alphabet|
      invariant spelled + Spell(have, alphabet[i..]) == Spell(have, alphabet)
    {
      assert alphabet[i..][1..] == alphabet[i + 1..];
      if alphabet[i] in have {
        spelled := spelled + [alphabet[i]];
      }
    }
  }

  method ParseRights(s: string) returns (r: Option<string>)
    ensures r == Normal(s)
  {
    var ok, have := CollectLetters(s);
    if !ok {
      return None;
    }
    var spelled := SpellOut(have, ALL_RIGHTS);
    r := Some(spelled);
  }

  lemma LettersGrow(s: string, i: nat)
    requires i < |s|
    ensures Letters(s[..i + 1]) == Letters(s[..i]) + Expand(s[i])
  {
    assert s[..i + 1] == s[..i] + [s[i]];
  }

  lemma {:induction false} SpellMembers(have: set<char>, alphabet: string, c: char)
    ensures c in Spell(have, alphabet) <==> c in have && c in alphabet
  {
    if alphabet != [] {
      SpellMembers(have, alphabet[1..], c);
      assert alphabet == [alphabet[0]] + alphabet[1..];
    }
  }

  lemma ExpandsToRights(c: char, r: char)
    requires r in Expand(c)
    ensures r in ALL_RIGHTS && Expand(r) == {r}
  {
    assert ALL_RIGHTS[6] == 'k' && ALL_RIGHTS[8] == 't' && ALL_RIGHTS[9] == 'e';
  }

  lemma NormalLetters(s: string, c: char)
    requires Recognised(s)
    ensures c in Normal(s).value <==> c in Letters(s)
    ensures c in Normal(s).value ==> Expand(c) == {c}
  {
    SpellMembers(Letters(s), ALL_RIGHTS, c);
    if c in Letters(s) {
      var d :| d in s && c in Expand(d);
      ExpandsToRights(d, c);
    }
  }

  /** Parsing what parsing produced changes nothing. */
  lemma NormalIsCanonical(s: string)
    requires Recognised(s)
    ensures Canonical(Normal(s).value)
  {
    var n := Normal(s).value;
    forall c | c in n
      ensures Expand(c) == {c}
    {
      NormalLetters(s, c);
    }
    forall c
      ensures c in Letters(n) <==> c in Letters(s)
    {
      NormalLetters(s, c);
    }
    assert Letters(n) == Letters(s);
  }

  lemma {:induction false} SpellConcat(have: set<char>, a: string, b: string)
    ensures Spell(have, a + b) == Spell(have, a) + Spell(have, b)
  {
    if a == "" {
      assert a + b == b;
    } else {
      var first := if a[0] in have then [a[0]] else [];
      assert (a + b)[1..] == a[1..] + b && (a + b)[0] == a[0];
      SpellConcat(have, a[1..], b);
      Regroup(first, Spell(have, a[1..]), Spell(have, b));
    }
  }

  /** A stretch of the alphabet that is had in full, or not at all. */
  lemma {:induction false} SpellStretch(have: set<char>, a: string)
    ensures (forall c :: c in a ==> c in have) ==> Spell(have, a) == a
    ensures (forall c :: c in a ==> c !in have) ==> Spell(have, a) == ""
  {
    if a != "" {
      assert a[0] in a && forall c :: c in a[1..] ==> c in a;
      SpellStretch(have, a[1..]);
      assert a == [a[0]] + a[1..];
    }
  }

  lemma {:induction false} SpellOne(c: char, alphabet: string)
    requires forall i, j :: 0 <= i < j < |alphabet| ==> alphabet[i] != alphabet[j]
    ensures Spell({c}, alphabet) == if c in alphabet then [c] else []
  {
    if alphabet != "" {
      SpellOne(c, alphabet[1..]);
      assert alphabet == [alphabet[0]] + alphabet[1..];
    }
  }

  lemma NormalOfOne(c: char)
    ensures Normal([c]) == if Expand(c) == {} then None else Some(Spell(Expand(c), ALL_RIGHTS))
  {
    assert Recognised([c]) <==> Expand(c) != {};
    assert Letters([c]) == Expand(c);
  }

  lemma SpellOf(have: set<char>, alphabet: string, before: string, kept: string, after: string)
    requires alphabet == before + kept + after
    requires (forall c :: c in kept ==> c in have) && forall c :: c in before + after ==> c !in have
    ensures Spell(have, alphabet) == kept
  {
    SpellConcat(have, before + kept, after);
    SpellConcat(have, before, kept);
    SpellStretch(have, before);
    SpellStretch(have, kept);
    SpellStretch(have, after);
  }

  lemma DeleteIs(c: char)
    requires c == 'd'
    ensures Normal([c]) == Some("te")
  {
    NormalOfOne(c);
    SpellOf(Expand(c), ALL_RIGHTS, "lrswipkx", "te", "a");
  }

  /** The eleven rights by themselves, what the two obsolete letters stand for, and nothing else. */
  lemma RightsLetters(c: char)
    ensures Normal([c]) == if c == 'c' then Some("k") else if c == 'd' then Some("te")
                           else if c in "lrswipkxtea" then Some([c]) else None
  {
    if c == 'd' {
      DeleteIs(c);
    } else {
      NormalOfOne(c);
      SpellOne(if c == 'c' then 'k' else c, ALL_RIGHTS);
    }
  }

  lemma {:induction false} SpellInOrder(have: set<char>, alphabet: string, i: nat, j: nat)
    requires i < j < |Spell(have, alphabet)|
    ensures exists p, q :: 0 <= p < q < |alphabet| && alphabet[p] == Spell(have, alphabet)[i]
              && alphabet[q] == Spell(have, alphabet)[j]
  {
    var rest := Spell(have, alphabet[1..]);
    if alphabet[0] !in have {
      SpellInOrder(have, alphabet[1..], i, j);
      var p, q :| 0 <= p < q < |alphabet[1..]| && alphabet[1..][p] == rest[i] && alphabet[1..][q] == rest[j];
      assert alphabet[p + 1] == rest[i] && alphabet[q + 1] == rest[j];
    } else if i > 0 {
      SpellInOrder(have, alphabet[1..], i - 1, j - 1);
      var p, q :| 0 <= p < q < |alphabet[1..]| && alphabet[1..][p] == rest[i - 1] && alphabet[1..][q] == rest[j - 1];
      assert alphabet[p + 1] == rest[i - 1] && alphabet[q + 1] == rest[j - 1];
    } else {
      SpellMembers(have, alphabet[1..], rest[j - 1]);
      var q :| 0 <= q < |alphabet[1..]| && alphabet[1..][q] == rest[j - 1];
      assert alphabet[q + 1] == rest[j - 1];
    }
  }

  /** Canonical rights stand in this order, none of them twice. */
  lemma NormalInOrder(s: string, i: nat, j: nat)
    requires Normal(s).Some? && i < j < |Normal(s).value|
    ensures var order := "lrswipkxtea";
            exists p, q :: 0 <= p < q < |order| && order[p] == Normal(s).value[i] && order[q] == Normal(s).value[j]
  {
    SpellInOrder(Letters(s), ALL_RIGHTS, i, j);
  }

  lemma CanonicalLetters(r: string)
    requires Canonical(r)
    ensures Letters(r) == set c | c in r
  {
    forall c
      ensures c in Letters(r) <==> c in r
    {
      NormalLetters(r, c);
    }
  }

  // ---------------------------------------------------------------- identifiers

  datatype Identifier =
    | Anyone
    | Authenticated
    | Owner
    | User(name: string)
    | Group(name: string)
    | GroupOverride(name: string)

  const MAX_IDENTIFIER := 1024

  predicate Plain(s: string) {
    |s| <= MAX_IDENTIFIER && forall c :: c in s ==> ' ' <= c && c != (0x7f as char)
  }

  function Text(id: Identifier): string {
    match id
    case Anyone => "anyone"
    case Authenticated => "authenticated"
    case Owner => "owner"
    case User(name) => "user=" + name
    case Group(name) => "group=" + name
    case GroupOverride(name) => "group-override=" + name
  }

  function Parse(s: string): Option<Identifier> {
    if !Plain(s) then None
    else if s == "anyone" || s == "anonymous" then Some(Anyone)
    else if s == "authenticated" then Some(Authenticated)
    else if s == "owner" then Some(Owner)
    else if HasPrefix(s, "user=") then (if s == "user=" then None else Some(User(s[5..])))
    else if HasPrefix(s, "group-override=") then (if s == "group-override=" then None else Some(GroupOverride(s[15..])))
    else if HasPrefix(s, "group=") then (if s == "group=" then None else Some(Group(s[6..])))
    else None
  }

  /** An identifier the formats can carry. */
  predicate Valid(id: Identifier) {
    Plain(Text(id)) && (id.User? || id.Group? || id.GroupOverride? ==> id.name != "")
  }

  /** A name is fit for a user entry exactly if it has between 1 and 1019 characters and none of them is a control. */
  lemma ValidUserIff(name: string)
    ensures Valid(User(name))
       <==> 1 <= |name| <= 1019 && forall i :: 0 <= i < |name| ==> name[i] as int >= 32 && name[i] as int != 127
  {
    var s := "user=" + name;
    assert forall i :: 0 <= i < |name| ==> s[i + 5] == name[i];
    if Plain(s) {
      forall i | 0 <= i < |name| ensures name[i] as int >= 32 && name[i] as int != 127 { assert s[i + 5] in s; }
    }
    if forall i :: 0 <= i < |name| ==> name[i] as int >= 32 && name[i] as int != 127 {
      forall c | c in s ensures ' ' <= c && c != (0x7f as char) {
        var i :| 0 <= i < |s| && s[i] == c;
        if i >= 5 { assert name[i - 5] == c; }
      }
    }
  }

  lemma NotPrefix(s: string, prefix: string, k: nat)
    requires k < |s| && k < |prefix| && s[k] != prefix[k]
    ensures !HasPrefix(s, prefix)
  {
    assert |s| >= |prefix| ==> s[..|prefix|][k] == s[k];
  }

  lemma ParseText(id: Identifier)
    ensures Parse(Text(id)) == Some(id) <==> Valid(id)
  {
    var s := Text(id);
    match id
    case User(name) =>
      assert s[..5] == "user=" && s[5..] == name && s[0] == 'u';
      assert s == "user=" <==> name == "";
    case Group(name) =>
      assert s[..6] == "group=" && s[6..] == name && s[0] == 'g' && s[5] == '=';
      NotPrefix(s, "group-override=", 5);
      NotPrefix(s, "user=", 0);
      assert s == "group=" <==> name == "";
    case GroupOverride(name) =>
      assert s[..15] == "group-override=" && s[15..] == name && s[0] == 'g';
      NotPrefix(s, "user=", 0);
      assert s == "group-override=" <==> name == "";
    case _ =>
  }

  lemma ParseIsValid(s: string)
    requires Parse(s).Some?
    ensures Valid(Parse(s).value)
    ensures s != "anonymous" ==> Text(Parse(s).value) == s
  {
    if HasPrefix(s, "user=") && s != "user=" {
      assert s == "user=" + s[5..];
    } else if HasPrefix(s, "group-override=") && s != "group-override=" {
      assert s == "group-override=" + s[15..];
    } else if HasPrefix(s, "group=") && s != "group=" {
      assert s == "group=" + s[6..];
    }
  }

  /** Prefixed forms first, then the keywords, then a bare name as a user. */
  function ParseAdmin(s: string): Option<Identifier> {
    if s == "" then None
    else if HasPrefix(s, "user=") || HasPrefix(s, "group=") || HasPrefix(s, "group-override=") then Parse(s)
    else if Parse(s).Some? && !Parse(s).value.User? then Parse(s)
    else Parse("user=" + s)
  }

  lemma ParseAdminText(id: Identifier)
    ensures ParseAdmin(Text(id)) == Some(id) <==> Valid(id)
  {
    ParseText(id);
    var s := Text(id);
    match id
    case User(name) => assert s[..5] == "user=";
    case Group(name) => assert s[..6] == "group=";
    case GroupOverride(name) => assert s[..15] == "group-override=";
    case _ =>
  }

  /** A bare name is the user of that name, unless it is one of the four keywords. */
  lemma BareNameIsUser(name: string)
    requires name != "" && name !in {"anyone", "anonymous", "authenticated", "owner"}
    requires !HasPrefix(name, "user=") && !HasPrefix(name, "group=") && !HasPrefix(name, "group-override=")
    ensures ParseAdmin(name) == if Valid(User(name)) then Some(User(name)) else None
  {
    ParseText(User(name));
    var s := "user=" + name;
    assert s[..5] == "user=" && s != "user=";
  }

  lemma TextHasNoSign(id: Identifier)
    ensures Text(id) != "" && Text(id)[0] != '-'
  {
  }

  lemma ParseAdminIsValid(s: string)
    requires ParseAdmin(s).Some?
    ensures Valid(ParseAdmin(s).value)
  {
    if Parse(s).Some? {
      ParseIsValid(s);
    }
    if Parse("user=" + s).Some? {
      ParseIsValid("user=" + s);
    }
  }

  // ---------------------------------------------------------------- the wire

  datatype Entry = Entry(id: Identifier, rights: string, negative: bool)

  type ACL = seq<Entry>

  datatype WireEntry = WireEntry(identifier: string, rights: string, negative: bool)

  predicate ValidEntry(e: Entry) {
    Valid(e.id) && Canonical(e.rights)
  }

  predicate ValidACL(acl: ACL) {
    forall e :: e in acl ==> ValidEntry(e)
  }

  function Sign(negative: bool): string {
    if negative then "-" else ""
  }

  function EncodeEntry(e: Entry): WireEntry {
    WireEntry(Sign(e.negative) + Text(e.id), e.rights, e.negative)
  }

  function DecodeEntry(w: WireEntry): Option<Entry> {
    var signed := w.identifier != "" && w.identifier[0] == '-';
    var id := ParseAdmin(if signed then w.identifier[1..] else w.identifier);
    var rights := Normal(w.rights);
    if id.None? || rights.None? then None
    else Some(Entry(id.value, rights.value, w.negative || signed))
  }

  function Encode(acl: ACL): seq<WireEntry> {
    seq(|acl|, i requires 0 <= i < |acl| => EncodeEntry(acl[i]))
  }

  function Decode(wire: seq<WireEntry>): Option<ACL> {
    if wire == [] then Some([])
    else
      var first, rest := DecodeEntry(wire[0]), Decode(wire[1..]);
      if first.None? || rest.None? then None else Some([first.value] + rest.value)
  }

  method ToWire(acl: ACL) returns (wire: seq<WireEntry>)
    ensures wire == Encode(acl)
  {
    wire := [];
    for i := 0 to |acl|
      invariant wire == Encode(acl[..i])
    {
      var id := Text(acl[i].id);
      if acl[i].negative {
        id := "-" + id;
      }
      assert "" + Text(acl[i].id) == Text(acl[i].id);
      assert Encode(acl[..i + 1]) == Encode(acl[..i]) + [EncodeEntry(acl[i])];
      wire := wire + [WireEntry(id, acl[i].rights, acl[i].negative)];
    }
    assert acl[..|acl|] == acl;
  }

  method ReadEntry(w: WireEntry) returns (e: Option<Entry>)
    ensures e == DecodeEntry(w)
  {
    var text, negative := w.identifier, w.negative;
    if text != "" && text[0] == '-' {
      negative, text := true, text[1..];
    }
    var id := ParseAdmin(text);
    if id.None? {
      return None;
    }
    var rights := ParseRights(w.rights);
    if rights.None? {
      return None;
    }
    e := Some(Entry(id.value, rights.value, negative));
  }

  function After(out: ACL, rest: Option<ACL>): Option<ACL> {
    if rest.None? then None else Some(out + rest.value)
  }

  lemma AfterOne(out: ACL, wire: seq<WireEntry>)
    requires wire != []
    ensures After(out, Decode(wire))
         == if DecodeEntry(wire[0]).None? then None else After(out + [DecodeEntry(wire[0]).value], Decode(wire[1..]))
  {
    var first, rest := DecodeEntry(wire[0]), Decode(wire[1..]);
    if first.Some? && rest.Some? {
      assert out + ([first.value] + rest.value) == out + [first.value] + rest.value;
    }
  }

  method FromWire(wire: seq<WireEntry>) returns (acl: Option<ACL>)
    ensures acl == Decode(wire)
  {
    var out: ACL := [];
    assert wire[0..] == wire;
    assert Decode(wire).Some? ==> out + Decode(wire).value == Decode(wire).value;
    for i := 0 to |wire|
      invariant Decode(wire) == After(out, Decode(wire[i..]))
    {
      AfterOne(out, wire[i..]);
      assert wire[i..][1..] == wire[i + 1..];
      var e := ReadEntry(wire[i]);
      if e.None? {
        return None;
      }
      out := out + [e.value];
    }
    assert wire[|wire|..] == [];
    assert out + [] == out;
    acl := Some(out);
  }

  lemma EntryRoundTrip(e: Entry)
    ensures DecodeEntry(EncodeEntry(e)) == Some(e) <==> ValidEntry(e)
  {
    ParseAdminText(e.id);
    TextHasNoSign(e.id);
    var w := EncodeEntry(e);
    if e.negative {
      assert w.identifier[1..] == Text(e.id);
    } else {
      assert w.identifier == Text(e.id);
    }
  }

  /** A wire entry is negative if it says so or its identifier is signed. */
  lemma SignEitherWay(id: Identifier, rights: string, signed: bool, negative: bool)
    requires Valid(id) && Canonical(rights)
    ensures DecodeEntry(WireEntry(Sign(signed) + Text(id), rights, negative))
         == Some(Entry(id, rights, signed || negative))
  {
    ParseAdminText(id);
    TextHasNoSign(id);
    var text := Sign(signed) + Text(id);
    assert (if signed then text[1..] else text) == Text(id);
  }

  lemma DecodeCons(e: Entry, acl: ACL)
    requires acl != [] && acl[0] == e
    ensures Decode(Encode(acl)) == Some(acl)
       <==> DecodeEntry(EncodeEntry(e)) == Some(e) && Decode(Encode(acl[1..])) == Some(acl[1..])
  {
    assert Encode(acl)[1..] == Encode(acl[1..]) && Encode(acl)[0] == EncodeEntry(e);
    assert acl == [e] + acl[1..];
    var first, rest := DecodeEntry(EncodeEntry(e)), Decode(Encode(acl[1..]));
    if first.Some? && rest.Some? {
      var whole := [first.value] + rest.value;
      assert whole[0] == first.value && whole[1..] == rest.value;
    }
  }

  lemma ValidCons(acl: ACL)
    requires acl != []
    ensures ValidACL(acl) <==> ValidEntry(acl[0]) && ValidACL(acl[1..])
  {
    assert acl == [acl[0]] + acl[1..];
  }

  /** Reading back what was written gives the same entries, signs included, for the valid ACLs and only them. */
  lemma {:induction false} WireRoundTrip(acl: ACL)
    ensures Decode(Encode(acl)) == Some(acl) <==> ValidACL(acl)
  {
    if acl != [] {
      WireRoundTrip(acl[1..]);
      EntryRoundTrip(acl[0]);
      DecodeCons(acl[0], acl);
      ValidCons(acl);
    }
  }

  lemma {:induction false} DecodeIsValid(wire: seq<WireEntry>)
    requires Decode(wire).Some?
    ensures ValidACL(Decode(wire).value)
  {
    if wire != [] {
      DecodeIsValid(wire[1..]);
      var w := wire[0];
      var signed := w.identifier != "" && w.identifier[0] == '-';
      ParseAdminIsValid(if signed then w.identifier[1..] else w.identifier);
      NormalIsCanonical(w.rights);
    }
  }
}
