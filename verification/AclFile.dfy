/** One folder's ACL as a file: a line per entry, quoted where a plain split would misread it. */
module AclFile {
  import opened Basics
  import opened Acl
  import opened AclEdits
  import opened AclList
  import opened Order
  import opened Splitting = Text

  // ---------------------------------------------------------------- one line out

  function EscapeOne(c: char): string {
    if c == '"' || c == '\\' then ['\\', c] else [c]
  }

  function Escape(s: string): string {
    if s == "" then "" else EscapeOne(s[0]) + Escape(s[1..])
  }

  predicate Blank(c: char) { c == ' ' || c == '\t' }

  /** An identifier that a split at the first blank, or the look for a quote, would misread. */
  predicate NeedsQuotes(name: string) {
    exists c :: c in name && (Blank(c) || c == '"' || c == '\\')
  }

  function FirstField(name: string): string {
    if NeedsQuotes(name) then ['"'] + Escape(name) + ['"'] else name
  }

  /** The sign goes inside the quotes; empty rights leave the separator at the end of the line. */
  function EntryLine(e: Entry): string {
    FirstField(Named(KeyOf(e))) + [' '] + e.rights
  }

  function Lines(acl: ACL): string {
    if acl == [] then "" else EntryLine(acl[0]) + ['\n'] + Lines(acl[1..])
  }

  // ---------------------------------------------------------------- one line in

  function TrimLeft(off: char -> bool, s: string): string {
    if s != "" && off(s[0]) then TrimLeft(off, s[1..]) else s
  }

  function TrimRight(off: char -> bool, s: string): string {
    if s != "" && off(s[|s| - 1]) then TrimRight(off, s[..|s| - 1]) else s
  }

  function Trim(off: char -> bool, s: string): string {
    TrimRight(off, TrimLeft(off, s))
  }

  datatype Fields = Fields(name: string, rest: string)

  function Prepend(c: char, f: Option<Fields>): Option<Fields> {
    if f.None? then None else Some(Fields([c] + f.value.name, f.value.rest))
  }

  /** What follows an opening quote: a backslash escapes, and a separator or the end follows the closing quote. */
  function Unquoted(s: string): Option<Fields> {
    if s == "" then None
    else if s[0] == '\\' then (if |s| == 1 then None else Prepend(s[1], Unquoted(s[2..])))
    else if s[0] == '"' then
      (if |s| == 1 then Some(Fields("", "")) else if Blank(s[1]) then Some(Fields("", s[2..])) else None)
    else Prepend(s[0], Unquoted(s[1..]))
  }

  function CutAtBlank(s: string): Fields {
    if s == "" then Fields("", "")
    else if Blank(s[0]) then Fields("", s[1..])
    else Fields([s[0]] + CutAtBlank(s[1..]).name, CutAtBlank(s[1..]).rest)
  }

  function Cut(s: string): Option<Fields> {
    if s != "" && s[0] == '"' then Unquoted(s[1..]) else Some(CutAtBlank(s))
  }

  datatype Reading = Nothing | Refused | Says(entry: Entry)

  function ReadFields(f: Fields): Reading {
    var name, letters := Bare(f.name), Trim(Blank, f.rest);
    if name == "" || (exists c :: c in letters && Blank(c)) then Refused
    else
      var id, rights := Parse(name), Normal(letters);
      if id.None? || rights.None? then Refused
      else Says(Entry(id.value, rights.value, f.name[0] == '-'))
  }

  /** Blank lines and comments say nothing. */
  function ReadLine(line: string): Reading {
    var shown := Trim(IsSpace, line);
    if shown == "" || shown[0] == '#' then Nothing
    else
      var fields := Cut(TrimCR(TrimLeft(Blank, line)));
      if fields.None? then Refused else ReadFields(fields.value)
  }

  function Entries(lines: seq<string>): Option<ACL> {
    if lines == [] then Some([])
    else
      var first, rest := ReadLine(lines[0]), Entries(lines[1..]);
      if first.Refused? || rest.None? then None
      else Some((if first.Says? then [first.entry] else []) + rest.value)
  }

  /** The whole file, duplicates collapsed; one line refused or too long refuses it. */
  function ReadFile(text: string): Option<ACL> {
    var found := Entries(Split(text, '\n'));
    if !Legible(text) || found.None? then None else Some(Collapsed(found.value))
  }

  // ---------------------------------------------------------------- the loops

  /** The scanning loop, with its position and what it has collected. */
  method Unquote(s: string) returns (f: Option<Fields>)
    requires s != ""
    ensures f == Unquoted(s[1..])
  {
    var name, i := "", 1;
    AfterNothing(Unquoted(s[1..]));
    while i < |s|
      invariant 1 <= i <= |s|
      invariant Unquoted(s[1..]) == After(name, Unquoted(s[i..]))
      decreases |s| - i
    {
      var c := s[i];
      UnquotedNext(s, i);
      if c == '\\' {
        if i + 1 >= |s| { return None; }
        AfterNext(name, s[i + 1], Unquoted(s[i + 2..]));
        name, i := name + [s[i + 1]], i + 2;
      } else if c == '"' {
        i := i + 1;
        assert name + "" == name;
        if i == |s| { return Some(Fields(name, "")); }
        if !Blank(s[i]) { return None; }
        return Some(Fields(name, s[i + 1..]));
      } else {
        AfterNext(name, c, Unquoted(s[i + 1..]));
        name, i := name + [c], i + 1;
      }
    }
    f := None;
  }

  lemma UnquotedNext(s: string, i: nat)
    requires i < |s|
    ensures Unquoted(s[i..])
         == if s[i] == '\\' then (if i + 1 == |s| then None else Prepend(s[i + 1], Unquoted(s[i + 2..])))
            else if s[i] == '"' then
              if i + 1 == |s| then Some(Fields("", ""))
              else if Blank(s[i + 1]) then Some(Fields("", s[i + 2..])) else None
            else Prepend(s[i], Unquoted(s[i + 1..]))
  {
    var t := s[i..];
    assert t[0] == s[i] && t[1..] == s[i + 1..];
    if |t| > 1 { assert t[1] == s[i + 1] && t[2..] == s[i + 2..]; }
  }

  lemma AfterNothing(f: Option<Fields>)
    ensures After("", f) == f
  {
    if f.Some? { assert "" + f.value.name == f.value.name; }
  }

  function After(name: string, f: Option<Fields>): Option<Fields> {
    if f.None? then None else Some(Fields(name + f.value.name, f.value.rest))
  }

  lemma AfterNext(name: string, c: char, f: Option<Fields>)
    ensures After(name, Prepend(c, f)) == After(name + [c], f)
  {
    if f.Some? { Regroup(name, [c], f.value.name); }
  }

  // ---------------------------------------------------------------- a written line, read

  lemma {:induction false} UnquotedEscape(s: string, rest: string)
    ensures Unquoted(Escape(s) + ['"', ' '] + rest) == Some(Fields(s, rest))
  {
    var text := Escape(s) + ['"', ' '] + rest;
    if s == "" {
      assert text[0] == '"' && text[1] == ' ' && text[2..] == rest;
    } else {
      UnquotedEscape(s[1..], rest);
      var first, more := EscapeOne(s[0]), Escape(s[1..]);
      var tail := more + ['"', ' '] + rest;
      Regroup(first, more, ['"', ' ']);
      Regroup(first, more + ['"', ' '], rest);
      assert (first + tail)[|first|..] == tail;
      assert s == [s[0]] + s[1..];
    }
  }

  lemma {:induction false} CutField(name: string, rest: string)
    requires forall c :: c in name ==> !Blank(c)
    ensures CutAtBlank(name + [' '] + rest) == Fields(name, rest)
  {
    var text := name + [' '] + rest;
    if name == "" {
      assert text[1..] == rest;
    } else {
      assert text[1..] == name[1..] + [' '] + rest;
      CutField(name[1..], rest);
      assert name == [name[0]] + name[1..];
    }
  }

  /** A plain name is written as it is, any other between quotes. */
  lemma FirstFieldIs(name: string)
    ensures ' ' !in name && '\t' !in name && '"' !in name && '\\' !in name ==> FirstField(name) == name
    ensures ' ' in name || '\t' in name || '"' in name || '\\' in name ==>
              |FirstField(name)| >= 2 && FirstField(name)[0] == '"' == FirstField(name)[|FirstField(name)| - 1]
  {
  }

  lemma QuotedTail(escaped: string, rights: string)
    ensures var line := ['"'] + escaped + ['"'] + [' '] + rights;
            line[0] == '"' && line[1..] == escaped + ['"', ' '] + rights
  {
  }

  lemma CutQuoted(name: string, rights: string)
    ensures Cut(['"'] + Escape(name) + ['"'] + [' '] + rights) == Some(Fields(name, rights))
  {
    QuotedTail(Escape(name), rights);
    UnquotedEscape(name, rights);
  }

  lemma CutPlain(name: string, rights: string)
    requires name != "" && !NeedsQuotes(name)
    ensures Cut(name + [' '] + rights) == Some(Fields(name, rights))
  {
    CutField(name, rights);
    assert name[0] in name && (name + [' '] + rights)[0] == name[0];
  }

  /** The two fields of a line come apart as they were put together. */
  lemma CutLine(e: Entry)
    ensures Cut(EntryLine(e)) == Some(Fields(Named(KeyOf(e)), e.rights))
  {
    var name := Named(KeyOf(e));
    if NeedsQuotes(name) {
      CutQuoted(name, e.rights);
    } else {
      NameStarts(KeyOf(e));
      CutPlain(name, e.rights);
    }
  }

  lemma NameStarts(k: Key)
    ensures Named(k) != "" && Named(k)[0] in {'-', 'a', 'o', 'u', 'g'}
  {
  }

  lemma LineStarts(e: Entry)
    ensures EntryLine(e) != "" && EntryLine(e)[0] in {'"', '-', 'a', 'o', 'u', 'g'}
  {
    NameStarts(KeyOf(e));
  }

  lemma {:induction false} TrimRightKeepsFirst(off: char -> bool, s: string)
    requires s != "" && !off(s[0])
    ensures TrimRight(off, s) != "" && TrimRight(off, s)[0] == s[0]
  {
    if off(s[|s| - 1]) { TrimRightKeepsFirst(off, s[..|s| - 1]); }
  }

  /** Nothing but a carriage return at its end could be lost from a line, and there is none. */
  lemma LineKeptWhole(e: Entry)
    requires Canonical(e.rights)
    ensures TrimCR(TrimLeft(Blank, EntryLine(e))) == EntryLine(e)
    ensures Trim(IsSpace, EntryLine(e)) != "" && Trim(IsSpace, EntryLine(e))[0] != '#'
  {
    LineStarts(e);
    var line := EntryLine(e);
    TrimRightKeepsFirst(IsSpace, line);
    NoControlInRights(e.rights);
    assert line[|line| - 1] == if e.rights == "" then ' ' else e.rights[|e.rights| - 1];
  }

  lemma NoBlankInRights(rights: string)
    requires Canonical(rights)
    ensures Trim(Blank, rights) == rights && forall c :: c in rights ==> !Blank(c)
  {
    forall c | c in rights ensures !Blank(c) { RightsAreLetters(rights, c); }
  }

  lemma FieldsRead(e: Entry)
    requires ValidEntry(e)
    ensures ReadFields(Fields(Named(KeyOf(e)), e.rights)) == Says(e)
  {
    NoBlankInRights(e.rights);
    NamedParses(KeyOf(e));
    TextHasNoSign(e.id);
    assert Bare(Named(KeyOf(e))) == Acl.Text(e.id);
  }

  lemma ReadIsValid(line: string)
    requires ReadLine(line).Says?
    ensures ValidEntry(ReadLine(line).entry)
  {
    var f := Cut(TrimCR(TrimLeft(Blank, line))).value;
    ParseIsValid(Bare(f.name));
    NormalIsCanonical(Trim(Blank, f.rest));
  }

  /** An entry reads back from its line, sign, blanks, quotes and empty rights included, iff it is valid. */
  lemma LineReadsBackIff(e: Entry)
    ensures ReadLine(EntryLine(e)) == Says(e) <==> ValidEntry(e)
  {
    if ValidEntry(e) {
      LineKeptWhole(e);
      CutLine(e);
      FieldsRead(e);
    }
    if ReadLine(EntryLine(e)) == Says(e) { ReadIsValid(EntryLine(e)); }
  }

  // ---------------------------------------------------------------- other lines

  lemma {:induction false} TrimLeftPast(off: char -> bool, pad: string, s: string)
    requires (forall c :: c in pad ==> off(c)) && (s == "" || !off(s[0]))
    ensures TrimLeft(off, pad + s) == s
  {
    if pad == "" {
      assert pad + s == s;
    } else {
      assert (pad + s)[1..] == pad[1..] + s;
      TrimLeftPast(off, pad[1..], s);
    }
  }

  /** A line of white space, and one whose first other character is a comment sign, say nothing. */
  lemma CommentReads(pad: string, rest: string)
    requires forall c :: c in pad ==> IsSpace(c)
    ensures ReadLine(pad) == Nothing && ReadLine(pad + ("#" + rest)) == Nothing
  {
    TrimLeftPast(IsSpace, pad, "");
    assert pad + "" == pad;
    TrimLeftPast(IsSpace, pad, "#" + rest);
    TrimRightKeepsFirst(IsSpace, "#" + rest);
  }

  lemma {:induction false} UnquotedOpen(s: string)
    requires '"' !in s && '\\' !in s
    ensures Unquoted(s) == None && Unquoted(s + "\\") == None
  {
    if s == "" {
      assert s + "\\" == "\\";
    } else {
      UnquotedOpen(s[1..]);
      assert (s + "\\")[1..] == s[1..] + "\\";
    }
  }

  lemma {:induction false} UnquotedThen(s: string, c: char, rest: string)
    requires '"' !in s && '\\' !in s && !Blank(c)
    ensures Unquoted(s + (['"', c] + rest)) == None
  {
    if s == "" {
      assert s + (['"', c] + rest) == ['"', c] + rest;
    } else {
      UnquotedThen(s[1..], c, rest);
      assert (s + (['"', c] + rest))[1..] == s[1..] + (['"', c] + rest);
    }
  }

  /** A name whose quote is not closed, ends in a bare backslash, or is followed by no blank cannot be cut off. */
  lemma BadQuotesRefused(s: string, c: char, rest: string)
    requires '"' !in s && '\\' !in s && !Blank(c)
    ensures Cut("\"" + s) == None && Cut("\"" + (s + "\\")) == None && Cut("\"" + (s + (['"', c] + rest))) == None
  {
    UnquotedOpen(s);
    UnquotedThen(s, c, rest);
    assert ("\"" + s)[1..] == s && ("\"" + (s + "\\"))[1..] == s + "\\";
    assert ("\"" + (s + (['"', c] + rest)))[1..] == s + (['"', c] + rest);
  }

  /** A line with a third field, and one without an identifier, are refused. */
  lemma BadFieldsRefused(name: string, a: string, b: string)
    requires a != "" && b != "" && (forall c :: c in a ==> !Blank(c)) && forall c :: c in b ==> !Blank(c)
    ensures ReadFields(Fields(name, a + " " + b)) == Refused
    ensures ReadFields(Fields("", a)) == Refused && ReadFields(Fields("-", a)) == Refused
  {
    var letters := a + " " + b;
    assert a[0] in a && b[|b| - 1] in b;
    assert letters[0] == a[0] && letters[|letters| - 1] == b[|b| - 1];
    assert Trim(Blank, letters) == letters && letters[|a|] == ' ' && ' ' in letters;
    assert Bare("-") == "";
  }

  // ---------------------------------------------------------------- the whole file

  lemma {:induction false} EscapeLength(s: string)
    ensures |Escape(s)| <= 2 * |s| && ('\n' in Escape(s) <==> '\n' in s)
  {
    if s != "" {
      EscapeLength(s[1..]);
      assert s == [s[0]] + s[1..];
    }
  }

  lemma WholeLine(e: Entry)
    requires ValidEntry(e)
    ensures '\n' !in EntryLine(e) && |EntryLine(e)| < LIMIT
  {
    NoControlInRights(e.rights);
    NoControlInName(KeyOf(e));
    EscapeLength(Named(KeyOf(e)));
    SpellLength(Letters(e.rights), ALL_RIGHTS);
  }

  ghost predicate ReadAs(lines: seq<string>, acl: ACL) {
    AllShort(lines) && Entries(lines) == Some(acl)
  }

  lemma NothingRead()
    ensures ReadAs(Split("", '\n'), [])
  {
    assert Split("", '\n') == [""] && ReadLine("") == Nothing;
    var none: ACL := [];
    assert [""][1..] == [] && none + none == none;
    assert Entries([""]) == Some(none + none);
  }

  lemma OneMoreRead(e: Entry, text: string, rest: ACL)
    requires ValidEntry(e) && ReadAs(Split(text, '\n'), rest)
    ensures ReadAs(Split(EntryLine(e) + ['\n'] + text, '\n'), [e] + rest)
  {
    var line, lines := EntryLine(e), Split(text, '\n');
    WholeLine(e);
    LineReadsBackIff(e);
    SplitField(line, '\n', text);
    assert ([line] + lines)[1..] == lines;
  }

  lemma {:induction false} LinesRead(acl: ACL)
    requires ValidACL(acl)
    ensures ReadAs(Split(Lines(acl), '\n'), acl)
  {
    if acl == [] {
      NothingRead();
    } else {
      ValidCons(acl);
      LinesRead(acl[1..]);
      OneMoreRead(acl[0], Lines(acl[1..]), acl[1..]);
      assert acl == [acl[0]] + acl[1..];
    }
  }

  /** Any list written as it stands reads back collapsed. */
  lemma ReadsBackCollapsed(acl: ACL)
    requires ValidACL(acl)
    ensures ReadFile(Lines(acl)) == Some(Collapsed(acl))
  {
    LinesRead(acl);
  }

  function Found(r: Reading): ACL {
    if r.Says? then [r.entry] else []
  }

  function Then(out: ACL, rest: Option<ACL>): Option<ACL> {
    if rest.None? then None else Some(out + rest.value)
  }

  lemma ThenFirst(rest: Option<ACL>)
    ensures Then([], rest) == rest
  {
    if rest.Some? { assert [] + rest.value == rest.value; }
  }

  lemma EntriesNext(out: ACL, lines: seq<string>, i: nat)
    requires i < |lines|
    ensures var r := ReadLine(lines[i]);
            Then(out, Entries(lines[i..])) == if r.Refused? then None else Then(out + Found(r), Entries(lines[i + 1..]))
  {
    var rest := Entries(lines[i + 1..]);
    assert lines[i..][1..] == lines[i + 1..];
    if rest.Some? { Regroup(out, Found(ReadLine(lines[i])), rest.value); }
  }

  /** The reading loop, stopped by the first line that is refused or that its buffer cannot hold. */
  method Read(text: string) returns (acl: Option<ACL>)
    ensures acl == ReadFile(text)
  {
    var lines := Split(text, '\n');
    var out: ACL := [];
    ThenFirst(Entries(lines));
    assert lines[0..] == lines;
    for i := 0 to |lines|
      invariant Entries(lines) == Then(out, Entries(lines[i..]))
      invariant forall j :: 0 <= j < i ==> |lines[j]| < LIMIT
    {
      if |lines[i]| >= LIMIT { return None; }
      EntriesNext(out, lines, i);
      var r := ReadLine(lines[i]);
      if r.Refused? { return None; }
      assert out + [] == out;
      if r.Says? { out := out + [r.entry]; }
    }
    assert out + [] == out;
    var collapsed := Collapse(out);
    acl := Some(collapsed);
  }

  // ---------------------------------------------------------------- the store's own files

  function Rank(id: Identifier): nat {
    match id
    case Anyone => 1
    case Authenticated => 2
    case Owner => 3
    case User(_) => 4
    case Group(_) => 5
    case GroupOverride(_) => 6
  }

  function Name(id: Identifier): string {
    if id.User? || id.Group? || id.GroupOverride? then id.name else ""
  }

  /** By kind, then by name, the positive entry of an identifier before the negative one. */
  predicate EntryLeq(a: Entry, b: Entry) {
    if Rank(a.id) != Rank(b.id) then Rank(a.id) < Rank(b.id)
    else if Name(a.id) != Name(b.id) then StringLeq(Name(a.id), Name(b.id))
    else b.negative || !a.negative
  }

  lemma EntryLeqTransitive(a: Entry, b: Entry, c: Entry)
    requires EntryLeq(a, b) && EntryLeq(b, c)
    ensures EntryLeq(a, c)
  {
    var s, t, u := Name(a.id), Name(b.id), Name(c.id);
    if Rank(a.id) == Rank(b.id) == Rank(c.id) && StringLeq(s, t) && StringLeq(t, u) {
      StringLeqTransitive(s, t, u);
      if s == u && s != t { StringLeqAntisymmetric(s, t); }
    }
  }

  lemma EntryOrderIsTotal()
    ensures TotalOrder(EntryLeq)
  {
    forall a: Entry, b: Entry
      ensures EntryLeq(a, b) || EntryLeq(b, a)
    {
      StringLeqTotal(Name(a.id), Name(b.id));
    }
    forall a: Entry, b: Entry, c: Entry | EntryLeq(a, b) && EntryLeq(b, c)
      ensures EntryLeq(a, c)
    {
      EntryLeqTransitive(a, b, c);
    }
  }

  /** The kinds in their order, users and groups by name, the positive entry of an identifier first. */
  ghost predicate FiledFirst(a: Entry, b: Entry) {
    || (a.id.Anyone? && !b.id.Anyone?)
    || (a.id.Authenticated? && (b.id.Owner? || b.id.User? || b.id.Group? || b.id.GroupOverride?))
    || (a.id.Owner? && (b.id.User? || b.id.Group? || b.id.GroupOverride?))
    || (a.id.User? && (b.id.Group? || b.id.GroupOverride? || (b.id.User? && ComesFirst(a.id.name, b.id.name))))
    || (a.id.Group? && (b.id.GroupOverride? || (b.id.Group? && ComesFirst(a.id.name, b.id.name))))
    || (a.id.GroupOverride? && b.id.GroupOverride? && ComesFirst(a.id.name, b.id.name))
    || (a.id == b.id && !a.negative && b.negative)
  }

  lemma EntriesInOrder(acl: ACL, a: Entry, b: Entry) returns (i: nat, j: nat)
    requires a in acl && b in acl && FiledFirst(a, b)
    ensures i < j < |Sorted(acl)| && Sorted(acl)[i] == a && Sorted(acl)[j] == b
  {
    EntryOrderIsTotal();
    if ComesFirst(Name(a.id), Name(b.id)) {
      ComesFirstIsStrict(Name(a.id), Name(b.id));
      StringLeqIff(Name(a.id), Name(a.id));
    }
    i, j := SortByOrders(EntryLeq, acl, a, b);
  }

  function Sorted(acl: ACL): ACL {
    SortBy(EntryLeq, acl)
  }

  /** The body of the file the store writes. */
  function Body(acl: ACL): string {
    Lines(Sorted(Collapsed(acl)))
  }

  ghost predicate NoneFor(acl: ACL, k: Key) {
    forall e :: e in acl ==> KeyOf(e) != k
  }

  lemma OnePerKeyCons(acl: ACL)
    requires acl != []
    ensures OnePerKey(acl) <==> OnePerKey(acl[1..]) && NoneFor(acl[1..], KeyOf(acl[0]))
  {
    var rest := acl[1..];
    forall i | 0 <= i < |rest| ensures rest[i] in rest && rest[i] == acl[i + 1] { }
  }

  lemma InsertHolds(e: Entry, acl: ACL, x: Entry)
    ensures x in InsertBy(EntryLeq, e, acl) <==> x == e || x in acl
  {
    InsertByElements(EntryLeq, e, acl);
    assert x in InsertBy(EntryLeq, e, acl) <==> x in multiset(InsertBy(EntryLeq, e, acl));
  }

  lemma {:induction false} InsertKeepsOnePerKey(e: Entry, acl: ACL)
    requires OnePerKey(acl) && NoneFor(acl, KeyOf(e))
    ensures OnePerKey(InsertBy(EntryLeq, e, acl))
  {
    var all := InsertBy(EntryLeq, e, acl);
    if acl == [] || EntryLeq(e, acl[0]) {
      assert all[0] == e && all[1..] == acl;
    } else {
      OnePerKeyCons(acl);
      InsertKeepsOnePerKey(e, acl[1..]);
      assert all[0] == acl[0] && all[1..] == InsertBy(EntryLeq, e, acl[1..]);
      forall x | x in all[1..] ensures KeyOf(x) != KeyOf(acl[0]) { InsertHolds(e, acl[1..], x); }
    }
    OnePerKeyCons(all);
  }

  lemma SortedHolds(acl: ACL, e: Entry)
    ensures e in Sorted(acl) <==> e in acl
  {
    SortByPermutes(EntryLeq, acl);
    assert e in Sorted(acl) <==> e in multiset(Sorted(acl));
  }

  lemma {:induction false} SortKeepsOnePerKey(acl: ACL)
    requires OnePerKey(acl)
    ensures OnePerKey(Sorted(acl))
  {
    if acl != [] {
      OnePerKeyCons(acl);
      SortKeepsOnePerKey(acl[1..]);
      forall x | x in Sorted(acl[1..]) ensures KeyOf(x) != KeyOf(acl[0]) { SortedHolds(acl[1..], x); }
      InsertKeepsOnePerKey(acl[0], Sorted(acl[1..]));
    }
  }

  lemma SameMembersSameLookup(a: ACL, b: ACL, k: Key)
    requires OnePerKey(a) && OnePerKey(b) && forall e :: e in a <==> e in b
    ensures Lookup(a, k) == Lookup(b, k)
  {
    if i :| 0 <= i < |a| && KeyOf(a[i]) == k {
      assert a[i] in b;
      var j :| 0 <= j < |b| && b[j] == a[i];
      LookupOnly(a, i);
      LookupOnly(b, j);
    } else {
      forall j | 0 <= j < |b| ensures KeyOf(b[j]) != k { assert b[j] in a; }
      LookupAbsent(a, k);
      LookupAbsent(b, k);
    }
  }

  lemma SortedLookup(acl: ACL, k: Key)
    ensures OnePerKey(Sorted(Collapsed(acl))) && Lookup(Sorted(Collapsed(acl)), k) == Lookup(acl, k)
  {
    var c := Collapsed(acl);
    CollapsedOnePerKey(acl);
    SortKeepsOnePerKey(c);
    forall e ensures e in c <==> e in Sorted(c) { SortedHolds(c, e); }
    SameMembersSameLookup(c, Sorted(c), k);
    CollapseKeepsLookup(acl, k);
  }

  /** What the file gives back grants every key what the list did. */
  ghost predicate Grants(text: string, acl: ACL) {
    ReadFile(text).Some? && forall k :: Lookup(ReadFile(text).value, k) == Lookup(acl, k)
  }

  lemma {:induction false} EntriesValid(lines: seq<string>)
    requires Entries(lines).Some?
    ensures ValidACL(Entries(lines).value)
  {
    if lines != [] {
      EntriesValid(lines[1..]);
      if ReadLine(lines[0]).Says? { ReadIsValid(lines[0]); }
    }
  }

  lemma {:induction false} LookupHasEntry(acl: ACL, k: Key) returns (e: Entry)
    requires Lookup(acl, k).Some?
    ensures e in acl && KeyOf(e) == k && e.rights == Lookup(acl, k).value
  {
    e := acl[|acl| - 1];
    if KeyOf(e) != k { e := LookupHasEntry(acl[..|acl| - 1], k); }
  }

  lemma GrantsOnlyValid(text: string, acl: ACL, e: Entry)
    requires Grants(text, acl) && e in Collapsed(acl)
    ensures ValidEntry(e)
  {
    var i :| 0 <= i < |Collapsed(acl)| && Collapsed(acl)[i] == e;
    CollapsedOnePerKey(acl);
    LookupOnly(Collapsed(acl), i);
    CollapseKeepsLookup(acl, KeyOf(e));
    var found := Entries(Split(text, '\n')).value;
    EntriesValid(Split(text, '\n'));
    CollapseKeepsLookup(found, KeyOf(e));
    var same := LookupHasEntry(found, KeyOf(e));
    assert same == e;
  }

  /**
   * A stored list reads back as written, one entry per key and in order, granting every key what
   * the caller's list granted, if and only if the entries that count are valid.
   */
  lemma StoredReadsBackIff(acl: ACL)
    ensures Grants(Body(acl), acl) <==> ValidACL(Collapsed(acl))
    ensures ValidACL(Collapsed(acl)) ==> ReadFile(Body(acl)) == Some(Sorted(Collapsed(acl)))
  {
    var c := Collapsed(acl);
    if ValidACL(c) {
      forall e | e in Sorted(c) ensures ValidEntry(e) { SortedHolds(c, e); }
      ReadsBackCollapsed(Sorted(c));
      CollapsedOnePerKey(acl);
      SortKeepsOnePerKey(c);
      CollapseStable(Sorted(c));
      forall k ensures Lookup(Sorted(c), k) == Lookup(acl, k) { SortedLookup(acl, k); }
    }
    if Grants(Body(acl), acl) {
      forall e | e in c ensures ValidEntry(e) { GrantsOnlyValid(Body(acl), acl, e); }
    }
  }
}
