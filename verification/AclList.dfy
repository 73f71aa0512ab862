/** The ACL index as text: one tab-separated line per row, and what a reader makes of it. */
module AclList {
  import opened Basics
  import opened Acl
  import opened AclEdits
  import opened AclIndex
  import opened Order
  import opened Splitting = Text

  function Line(r: Row): string {
    r.mailbox + ['\t'] + (Named(KeyOf(r.entry)) + ['\t'] + r.entry.rights)
  }

  function Render(rows: Index): string {
    if rows == [] then "" else Line(rows[0]) + ['\n'] + Render(rows[1..])
  }

  /** Writing sorts first, so the same rows always make the same file. */
  function Write(rows: Index): string {
    Render(SortBy(RowLeq, rows))
  }

  function TrimCR(s: string): string {
    if s != "" && s[|s| - 1] == '\r' then TrimCR(s[..|s| - 1]) else s
  }

  datatype Loaded = Skipped | Malformed | Got(row: Row)

  function LoadFields(fields: seq<string>): Loaded {
    if |fields| != 3 then Malformed
    else
      var id, rights := Parse(Bare(fields[1])), Normal(fields[2]);
      if id.None? || rights.None? then Malformed
      else Got(Row(fields[0], Entry(id.value, rights.value, fields[1] != "" && fields[1][0] == '-')))
  }

  function LoadLine(line: string): Loaded {
    var raw := TrimCR(line);
    if raw == "" || raw[0] == '#' then Skipped else LoadFields(Split(raw, '\t'))
  }

  /** The rows of the lines in order; one malformed line refuses the whole file. */
  function LoadLines(lines: seq<string>): Option<Index> {
    if lines == [] then Some([])
    else
      var first, rest := LoadLine(lines[0]), LoadLines(lines[1..]);
      if first.Malformed? || rest.None? then None
      else Some((if first.Got? then [first.row] else []) + rest.value)
  }

  function Load(text: string): Option<Index> {
    LoadLines(Split(text, '\n'))
  }

  // ---------------------------------------------------------------- line by line

  function Then(a: Option<Index>, b: Option<Index>): Option<Index> {
    if a.None? || b.None? then None else Some(a.value + b.value)
  }

  function One(line: string): Option<Index> {
    match LoadLine(line)
    case Skipped => Some([])
    case Malformed => None
    case Got(row) => Some([row])
  }

  lemma LoadCons(line: string, lines: seq<string>)
    ensures LoadLines([line] + lines) == Then(One(line), LoadLines(lines))
  {
    assert ([line] + lines)[1..] == lines;
  }

  lemma LoadAlone(line: string)
    ensures LoadLines([line]) == One(line)
  {
    LoadCons(line, []);
    assert [line] + [] == [line];
    ThenNothing(One(line));
  }

  lemma ThenAssociative(a: Option<Index>, b: Option<Index>, c: Option<Index>)
    ensures Then(a, Then(b, c)) == Then(Then(a, b), c)
  {
    if a.Some? && b.Some? && c.Some? {
      Regroup(a.value, b.value, c.value);
    }
  }

  lemma ThenNothing(a: Option<Index>)
    ensures Then(Some([]), a) == a && Then(a, Some([])) == a
  {
    if a.Some? {
      assert [] + a.value == a.value && a.value + [] == a.value;
    }
  }

  lemma {:induction false} LoadConcat(a: seq<string>, b: seq<string>)
    ensures LoadLines(a + b) == Then(LoadLines(a), LoadLines(b))
  {
    if a == [] {
      assert a + b == b;
      ThenNothing(LoadLines(b));
    } else {
      LoadConcat(a[1..], b);
      assert a + b == [a[0]] + (a[1..] + b) && a == [a[0]] + a[1..];
      LoadCons(a[0], a[1..] + b);
      LoadCons(a[0], a[1..]);
      ThenAssociative(One(a[0]), LoadLines(a[1..]), LoadLines(b));
    }
  }

  // ---------------------------------------------------------------- what a written row reads back as

  /** A row's text on its own, read: usually the row itself, but a name may hold separators. */
  function ReadBack(r: Row): Option<Index> {
    LoadLines(Split(Line(r), '\n'))
  }

  function ReadAll(rows: Index): Option<Index> {
    if rows == [] then Some([]) else Then(ReadBack(rows[0]), ReadAll(rows[1..]))
  }

  lemma LoadNothing()
    ensures Load("") == Some([])
  {
    assert Split("", '\n') == [""];
    LoadAlone("");
  }

  /** Reading a rendered index is reading its rows one by one, whatever their names hold. */
  lemma {:induction false} RenderReads(rows: Index)
    ensures Load(Render(rows)) == ReadAll(rows)
  {
    if rows == [] {
      LoadNothing();
    } else {
      RenderReads(rows[1..]);
      SplitConcat(Line(rows[0]), '\n', Render(rows[1..]));
      LoadConcat(Split(Line(rows[0]), '\n'), Split(Render(rows[1..]), '\n'));
    }
  }

  lemma WriteReads(rows: Index)
    ensures Load(Write(rows)) == ReadAll(SortBy(RowLeq, rows))
  {
    RenderReads(SortBy(RowLeq, rows));
  }

  // ---------------------------------------------------------------- names that read back

  /** A name the format carries: not a comment, no field separator, no line break. */
  predicate CleanName(mailbox: string) {
    ShownName(mailbox) && '\t' !in mailbox && '\n' !in mailbox
  }

  lemma RightsAreLetters(rights: string, c: char)
    requires Canonical(rights) && c in rights
    ensures c in ALL_RIGHTS
  {
    SpellMembers(Letters(rights), ALL_RIGHTS, c);
  }

  lemma NoControlInRights(rights: string)
    requires Canonical(rights)
    ensures '\t' !in rights && '\n' !in rights && '\r' !in rights
  {
    if '\t' in rights { RightsAreLetters(rights, '\t'); }
    if '\n' in rights { RightsAreLetters(rights, '\n'); }
    if '\r' in rights { RightsAreLetters(rights, '\r'); }
  }

  lemma NoControlInName(k: Key)
    requires Valid(k.id)
    ensures '\t' !in Named(k) && '\n' !in Named(k)
  {
    assert forall c :: c in Named(k) ==> c in Acl.Text(k.id) || c == '-';
  }

  lemma {:induction false} SpellLength(have: set<char>, alphabet: string)
    ensures |Spell(have, alphabet)| <= |alphabet|
  {
    if alphabet != "" { SpellLength(have, alphabet[1..]); }
  }

  /** Under a name that a path can hold, a row's line is well short of what the reader's buffer holds. */
  lemma LineFits(r: Row)
    requires ValidEntry(r.entry) && |r.mailbox| <= 4096
    ensures |Line(r)| < LIMIT / 100
  {
    SpellLength(Letters(r.entry.rights), ALL_RIGHTS);
  }

  lemma LineKept(r: Row)
    requires ValidEntry(r.entry)
    ensures TrimCR(Line(r)) == Line(r) && Line(r) != ""
    ensures '\n' in Line(r) <==> '\n' in r.mailbox
  {
    NoControlInRights(r.entry.rights);
    NoControlInName(KeyOf(r.entry));
    var line := Line(r);
    var rights := r.entry.rights;
    assert line[|line| - 1] == if rights == "" then '\t' else rights[|rights| - 1];
  }

  lemma {:induction false} SplitCount(s: string, sep: char)
    ensures |Split(s, sep)| == 1 + multiset(s)[sep]
  {
    if s != [] {
      SplitCount(s[1..], sep);
      assert s == [s[0]] + s[1..];
    }
  }

  lemma TabInNameSplitsTooOften(r: Row)
    requires '\t' in r.mailbox
    ensures |Split(Line(r), '\t')| > 3
  {
    var rest := Named(KeyOf(r.entry)) + ['\t'] + r.entry.rights;
    SplitCount(Line(r), '\t');
    assert multiset(Line(r)) == multiset(r.mailbox) + multiset(['\t']) + multiset(rest);
    assert multiset(rest) == multiset(Named(KeyOf(r.entry))) + multiset(['\t']) + multiset(r.entry.rights);
  }

  lemma ThreeFields(a: string, b: string, c: string)
    requires '\t' !in a && '\t' !in b && '\t' !in c
    ensures Split(a + ['\t'] + (b + ['\t'] + c), '\t') == [a, b, c]
  {
    SplitField(a, '\t', b + ['\t'] + c);
    SplitField(b, '\t', c);
    SplitWithout(c, '\t');
  }

  lemma LineFields(r: Row)
    requires ValidEntry(r.entry) && '\t' !in r.mailbox
    ensures Split(Line(r), '\t') == [r.mailbox, Named(KeyOf(r.entry)), r.entry.rights]
  {
    NoControlInRights(r.entry.rights);
    NoControlInName(KeyOf(r.entry));
    ThreeFields(r.mailbox, Named(KeyOf(r.entry)), r.entry.rights);
  }

  lemma NamedParses(k: Key)
    requires Valid(k.id)
    ensures Parse(Bare(Named(k))) == Some(k.id) && Named(k) != "" && (Named(k)[0] == '-' <==> k.negative)
  {
    ParseText(k.id);
    TextHasNoSign(k.id);
    assert Bare(Named(k)) == Acl.Text(k.id);
  }

  lemma FieldsReadBack(r: Row)
    requires ValidEntry(r.entry)
    ensures LoadFields([r.mailbox, Named(KeyOf(r.entry)), r.entry.rights]) == Got(r)
  {
    NamedParses(KeyOf(r.entry));
  }

  lemma LineStart(r: Row)
    ensures Line(r) != "" && (Line(r)[0] == '#' <==> !Shown(r))
  {
  }

  /** Read as one line, a row is itself, unless its mailbox hides it or holds the field separator. */
  lemma LineReadsBack(r: Row)
    requires ValidEntry(r.entry)
    ensures LoadLine(Line(r)) == if !Shown(r) then Skipped else if '\t' in r.mailbox then Malformed else Got(r)
  {
    LineKept(r);
    LineStart(r);
    if '\t' in r.mailbox {
      TabInNameSplitsTooOften(r);
    } else {
      LineFields(r);
      FieldsReadBack(r);
    }
  }

  lemma OneLineReadsBack(r: Row)
    requires ValidEntry(r.entry) && '\n' !in r.mailbox
    ensures ReadBack(r) == if !Shown(r) then Some([]) else if '\t' in r.mailbox then None else Some([r])
  {
    LineKept(r);
    LineReadsBack(r);
    SplitWithout(Line(r), '\n');
    LoadAlone(Line(r));
  }

  // ---------------------------------------------------------------- whatever is loaded is clean

  lemma {:induction false} PartsHoldNoSeparator(s: string, sep: char, part: string)
    requires part in Split(s, sep)
    ensures sep !in part && forall c :: c in part ==> c in s
  {
    if s != [] {
      var rest := Split(s[1..], sep);
      if s[0] == sep {
        if part != "" { PartsHoldNoSeparator(s[1..], sep, part); }
      } else if part == [s[0]] + rest[0] {
        PartsHoldNoSeparator(s[1..], sep, rest[0]);
      } else {
        assert part in rest;
        PartsHoldNoSeparator(s[1..], sep, part);
      }
    }
  }

  lemma {:induction false} TrimmedPrefix(s: string)
    ensures TrimCR(s) <= s
  {
    if s != "" && s[|s| - 1] == '\r' {
      TrimmedPrefix(s[..|s| - 1]);
    }
  }

  lemma LineGivesClean(line: string)
    requires '\n' !in line && LoadLine(line).Got?
    ensures CleanName(LoadLine(line).row.mailbox) && ValidEntry(LoadLine(line).row.entry)
  {
    var raw := TrimCR(line);
    TrimmedPrefix(line);
    var fields := Split(raw, '\t');
    PartsHoldNoSeparator(raw, '\t', fields[0]);
    FirstPart(raw, '\t');
    ParseIsValid(Bare(fields[1]));
    NormalIsCanonical(fields[2]);
  }

  lemma FirstPart(s: string, sep: char)
    requires s != ""
    ensures Split(s, sep)[0] != "" ==> Split(s, sep)[0][0] == s[0]
  {
  }

  predicate AllClean(rows: Index) {
    forall r :: r in rows ==> CleanName(r.mailbox) && ValidEntry(r.entry)
  }

  lemma {:induction false} LinesGiveClean(lines: seq<string>)
    requires (forall l :: l in lines ==> '\n' !in l) && LoadLines(lines).Some?
    ensures AllClean(LoadLines(lines).value)
  {
    if lines != [] {
      assert lines[0] in lines && forall l :: l in lines[1..] ==> l in lines;
      LinesGiveClean(lines[1..]);
      if LoadLine(lines[0]).Got? { LineGivesClean(lines[0]); }
    }
  }

  /** No reader ever finds a row under a name the format does not carry. */
  lemma LoadedClean(text: string)
    requires Load(text).Some?
    ensures AllClean(Load(text).value)
  {
    forall l | l in Split(text, '\n') ensures '\n' !in l { PartsHoldNoSeparator(text, '\n', l); }
    LinesGiveClean(Split(text, '\n'));
  }

  lemma ReadBackClean(r: Row)
    requires ReadBack(r).Some?
    ensures AllClean(ReadBack(r).value)
  {
    forall l | l in Split(Line(r), '\n') ensures '\n' !in l { PartsHoldNoSeparator(Line(r), '\n', l); }
    LinesGiveClean(Split(Line(r), '\n'));
  }

  /** A row reads back as itself exactly under a name the format carries. */
  lemma ReadsBackIffClean(r: Row)
    requires ValidEntry(r.entry)
    ensures ReadBack(r) == Some([r]) <==> CleanName(r.mailbox)
  {
    if CleanName(r.mailbox) {
      OneLineReadsBack(r);
    }
    if ReadBack(r) == Some([r]) {
      ReadBackClean(r);
      assert r in [r];
    }
  }

  // ---------------------------------------------------------------- names with line breaks

  predicate Comment(line: string) {
    TrimCR(line) == "" || TrimCR(line)[0] == '#'
  }

  /**
   * Every line the name breaks into is blank or a comment, and the last one, which the row's fields
   * follow, a comment.
   */
  predicate Silent(mailbox: string) {
    var parts := Split(mailbox, '\n');
    var last := parts[|parts| - 1];
    !ShownName(last) && forall i :: 0 <= i < |parts| - 1 ==> Comment(parts[i])
  }

  function LastJoined(parts: seq<string>, rest: string): seq<string>
    requires parts != []
  {
    parts[..|parts| - 1] + [parts[|parts| - 1] + rest]
  }

  lemma LastJoinedCons(first: string, parts: seq<string>, rest: string)
    requires parts != []
    ensures LastJoined([first] + parts, rest) == [first] + LastJoined(parts, rest)
  {
    var all := [first] + parts;
    assert all[..|all| - 1] == [first] + parts[..|parts| - 1];
  }

  lemma LastJoinedHead(c: char, parts: seq<string>, rest: string)
    requires parts != []
    ensures LastJoined([[c] + parts[0]] + parts[1..], rest)
         == [[c] + LastJoined(parts, rest)[0]] + LastJoined(parts, rest)[1..]
  {
    if |parts| == 1 {
      Regroup([c], parts[0], rest);
    } else {
      LastJoinedCons([c] + parts[0], parts[1..], rest);
      assert parts == [parts[0]] + parts[1..];
      LastJoinedCons(parts[0], parts[1..], rest);
    }
  }

  lemma {:induction false} SplitTail(name: string, sep: char, rest: string)
    requires sep !in rest
    ensures Split(name + rest, sep) == LastJoined(Split(name, sep), rest)
  {
    if name == "" {
      assert name + rest == rest && "" + rest == rest;
      SplitWithout(rest, sep);
    } else {
      SplitTail(name[1..], sep, rest);
      assert (name + rest)[1..] == name[1..] + rest;
      var parts := Split(name[1..], sep);
      if name[0] == sep {
        LastJoinedCons("", parts, rest);
      } else {
        LastJoinedHead(name[0], parts, rest);
      }
    }
  }

  lemma RowLines(r: Row)
    requires ValidEntry(r.entry)
    ensures var parts := Split(r.mailbox, '\n');
            Split(Line(r), '\n') == parts[..|parts| - 1] + [Line(Row(parts[|parts| - 1], r.entry))]
  {
    NoControlInRights(r.entry.rights);
    NoControlInName(KeyOf(r.entry));
    var fields := Named(KeyOf(r.entry)) + ['\t'] + r.entry.rights;
    SplitTail(r.mailbox, '\n', ['\t'] + fields);
    var parts := Split(r.mailbox, '\n');
    Regroup(r.mailbox, ['\t'], fields);
    Regroup(parts[|parts| - 1], ['\t'], fields);
  }

  lemma {:induction false} AllSkipped(lines: seq<string>)
    ensures LoadLines(lines) == Some([]) <==> forall i :: 0 <= i < |lines| ==> Comment(lines[i])
  {
    if lines != [] {
      AllSkipped(lines[1..]);
      assert lines == [lines[0]] + lines[1..];
      LoadCons(lines[0], lines[1..]);
      var rest := LoadLines(lines[1..]);
      if One(lines[0]).Some? && rest.Some? {
        assert One(lines[0]).value + rest.value == [] <==> One(lines[0]).value == [] && rest.value == [];
      }
    }
  }

  /** A row reads back as nothing exactly when all its lines are comments. */
  lemma ReadsBackNothingIff(r: Row)
    requires ValidEntry(r.entry)
    ensures ReadBack(r) == Some([]) <==> Silent(r.mailbox)
  {
    RowLines(r);
    var parts := Split(r.mailbox, '\n');
    var last := Row(parts[|parts| - 1], r.entry);
    var lines := Split(Line(r), '\n');
    AllSkipped(lines);
    LineReadsBack(last);
    assert lines[|lines| - 1] == Line(last) && forall i :: 0 <= i < |parts| - 1 ==> lines[i] == parts[i];
  }

  // ---------------------------------------------------------------- the whole file

  lemma ReadCons(r: Row, rows: Index)
    ensures ReadAll([r] + rows) == Then(ReadBack(r), ReadAll(rows))
  {
    assert ([r] + rows)[1..] == rows;
  }

  lemma ReadAlone(r: Row)
    ensures ReadAll([r]) == ReadBack(r)
  {
    ReadCons(r, []);
    assert [r] + [] == [r];
    ThenNothing(ReadBack(r));
  }

  lemma ReadConsConcat(r: Row, a: Index, b: Index)
    requires ReadAll(a + b) == Then(ReadAll(a), ReadAll(b))
    ensures ReadAll([r] + a + b) == Then(ReadAll([r] + a), ReadAll(b))
  {
    Regroup([r], a, b);
    ReadCons(r, a + b);
    ReadCons(r, a);
    ThenAssociative(ReadBack(r), ReadAll(a), ReadAll(b));
  }

  lemma {:induction false} ReadAllConcat(a: Index, b: Index)
    ensures ReadAll(a + b) == Then(ReadAll(a), ReadAll(b))
  {
    if a == [] {
      assert a + b == b;
      ThenNothing(ReadAll(b));
    } else {
      ReadAllConcat(a[1..], b);
      ReadConsConcat(a[0], a[1..], b);
      assert a == [a[0]] + a[1..];
    }
  }

  lemma {:induction false} CleanReadAll(rows: Index)
    requires AllClean(rows)
    ensures ReadAll(rows) == Some(rows)
  {
    if rows != [] {
      var rest := rows[1..];
      assert rows[0] in rows && forall r :: r in rest ==> r in rows;
      ReadsBackIffClean(rows[0]);
      CleanReadAll(rest);
      ReadCons(rows[0], rest);
      assert rows == [rows[0]] + rest;
    }
  }

  lemma {:induction false} ReadAllSomeIff(rows: Index)
    ensures ReadAll(rows).Some? <==> forall r :: r in rows ==> ReadBack(r).Some?
  {
    if rows != [] {
      ReadAllSomeIff(rows[1..]);
      assert rows == [rows[0]] + rows[1..];
    }
  }

  lemma {:induction false} ReadAllClean(rows: Index)
    requires ReadAll(rows).Some?
    ensures AllClean(ReadAll(rows).value)
  {
    if rows != [] {
      ReadBackClean(rows[0]);
      ReadAllClean(rows[1..]);
    }
  }

  lemma {:induction false} ReadInserted(r: Row, rows: Index)
    ensures ReadAll(InsertBy(RowLeq, r, rows)).Some? <==> ReadBack(r).Some? && ReadAll(rows).Some?
    ensures ReadBack(r).Some? && ReadAll(rows).Some? ==>
              multiset(ReadAll(InsertBy(RowLeq, r, rows)).value)
                == multiset(ReadBack(r).value) + multiset(ReadAll(rows).value)
  {
    var all := InsertBy(RowLeq, r, rows);
    if rows == [] || RowLeq(r, rows[0]) {
      assert all[1..] == rows;
    } else {
      ReadInserted(r, rows[1..]);
      assert all[0] == rows[0] && all[1..] == InsertBy(RowLeq, r, rows[1..]);
    }
  }

  /** Sorting changes neither whether an index can be read nor which rows are read. */
  lemma {:induction false} ReadSorted(rows: Index)
    ensures ReadAll(SortBy(RowLeq, rows)).Some? <==> ReadAll(rows).Some?
    ensures ReadAll(rows).Some? ==> multiset(ReadAll(SortBy(RowLeq, rows)).value) == multiset(ReadAll(rows).value)
  {
    if rows != [] {
      ReadSorted(rows[1..]);
      ReadInserted(rows[0], SortBy(RowLeq, rows[1..]));
    }
  }

  /** Through the filter the row reads back as itself. */
  ghost predicate Passes(keep: Row -> bool, r: Row) {
    ReadBack(r).Some? && Filter(keep, ReadBack(r).value) == Filter(keep, [r])
  }

  /** What every row keeps through its own reading, the whole index keeps. */
  lemma {:induction false} ReadFiltered(keep: Row -> bool, rows: Index)
    requires ReadAll(rows).Some? && forall r :: r in rows ==> Passes(keep, r)
    ensures Filter(keep, ReadAll(rows).value) == Filter(keep, rows)
  {
    if rows != [] {
      var first, rest := rows[0], rows[1..];
      assert first in rows && forall r :: r in rest ==> r in rows;
      ReadFiltered(keep, rest);
      assert Passes(keep, first);
      FilterConcat(keep, ReadBack(first).value, ReadAll(rest).value);
      FilterConcat(keep, [first], rest);
      assert rows == [first] + rest;
    }
  }

  // ---------------------------------------------------------------- exactly when a file reads back as meant

  predicate Carried(mailbox: string) {
    CleanName(mailbox) || (!ShownName(mailbox) && Silent(mailbox))
  }

  lemma ReadCarried(r: Row)
    requires ValidEntry(r.entry)
    ensures Carried(r.mailbox) ==> ReadBack(r) == Some(if Shown(r) then [r] else [])
    ensures !Shown(r) && ReadBack(r) == Some([]) ==> Carried(r.mailbox)
  {
    ReadsBackIffClean(r);
    ReadsBackNothingIff(r);
  }

  lemma {:induction false} CarriedReads(rows: Index)
    requires forall r :: r in rows ==> ValidEntry(r.entry) && Carried(r.mailbox)
    ensures ReadAll(rows) == Some(Filter(Shown, rows))
  {
    if rows != [] {
      assert rows[0] in rows && forall r :: r in rows[1..] ==> r in rows;
      ReadCarried(rows[0]);
      CarriedReads(rows[1..]);
    }
  }

  lemma {:induction false} ReadAtLeastShown(rows: Index)
    requires ReadAll(rows).Some? && forall r :: r in rows && Shown(r) ==> ValidEntry(r.entry) && CleanName(r.mailbox)
    ensures |ReadAll(rows).value| >= |Filter(Shown, rows)|
    ensures |ReadAll(rows).value| == |Filter(Shown, rows)| ==>
              forall r :: r in rows && !Shown(r) ==> ReadBack(r) == Some([])
  {
    if rows != [] {
      var first, rest := rows[0], rows[1..];
      assert first in rows && forall r :: r in rest ==> r in rows;
      ReadAtLeastShown(rest);
      if Shown(first) { ReadsBackIffClean(first); }
      assert |ReadAll(rows).value| == |ReadBack(first).value| + |ReadAll(rest).value|;
      assert forall r :: r in rows ==> r == first || r in rest;
    }
  }

  lemma ReadMeansCarried(rows: Index, r: Row)
    requires (forall x :: x in rows ==> ValidEntry(x.entry)) && ReadAll(rows) == Some(Filter(Shown, rows)) && r in rows
    ensures Carried(r.mailbox)
  {
    ReadAllClean(rows);
    forall x | x in rows && Shown(x) ensures CleanName(x.mailbox) { FilterMembers(Shown, rows, x); }
    ReadAtLeastShown(rows);
    ReadCarried(r);
  }

  /** The loader finds what was meant, if and only if every name is clean, or hidden with all its lines comments. */
  lemma WriteLoads(rows: Index)
    requires forall r :: r in rows ==> ValidEntry(r.entry)
    ensures Load(Write(rows)) == Some(Stored(rows)) <==> forall r :: r in rows ==> Carried(r.mailbox)
  {
    var sorted := SortBy(RowLeq, rows);
    SortedMembers(rows);
    WriteReads(rows);
    if forall r :: r in rows ==> Carried(r.mailbox) {
      CarriedReads(sorted);
    }
    if Load(Write(rows)) == Some(Stored(rows)) {
      forall r | r in rows ensures Carried(r.mailbox) { ReadMeansCarried(sorted, r); }
    }
  }

  lemma SortedMembers(rows: Index)
    ensures forall r :: r in SortBy(RowLeq, rows) <==> r in rows
  {
    var sorted := SortBy(RowLeq, rows);
    SortByPermutes(RowLeq, rows);
    assert forall r :: r in sorted <==> r in multiset(sorted);
    assert forall r :: r in rows <==> r in multiset(rows);
  }

  lemma ForgedLine(x: Row, y: Row)
    ensures Line(Row(Line(x) + ['\n'] + y.mailbox, y.entry)) == Line(x) + ['\n'] + Line(y)
  {
    var head, fields := Line(x) + ['\n'], Named(KeyOf(y.entry)) + ['\t'] + y.entry.rights;
    Regroup(head, y.mailbox, ['\t']);
    Regroup(head, y.mailbox + ['\t'], fields);
  }

  lemma WriteAlone(r: Row)
    ensures Load(Write([r])) == ReadBack(r)
  {
    WriteReads([r]);
    assert [r][1..] == [] && SortBy(RowLeq, []) == [];
    assert SortBy(RowLeq, [r]) == [r];
    ReadAlone(r);
  }

  /** One row under a name with a line break reads back as two rows, the first of them anybody's. */
  lemma ForgedRow(x: Row, y: Row)
    requires AllClean([x, y])
    ensures Load(Write([Row(Line(x) + ['\n'] + y.mailbox, y.entry)])) == Some([x, y])
  {
    assert x in [x, y] && y in [x, y];
    WriteAlone(Row(Line(x) + ['\n'] + y.mailbox, y.entry));
    ForgedLine(x, y);
    SplitConcat(Line(x), '\n', Line(y));
    LoadConcat(Split(Line(x), '\n'), Split(Line(y), '\n'));
    ReadsBackIffClean(x);
    ReadsBackIffClean(y);
    assert [x] + [y] == [x, y];
  }

  // ---------------------------------------------------------------- the same rows, the same file

  lemma RowLeqTransitive(a: Row, b: Row, c: Row)
    requires RowLeq(a, b) && RowLeq(b, c)
    ensures RowLeq(a, c)
  {
    var s, t, u := Acl.Text(a.entry.id), Acl.Text(b.entry.id), Acl.Text(c.entry.id);
    if a.mailbox == b.mailbox == c.mailbox {
      if StringLeq(s, t) && StringLeq(t, u) {
        StringLeqTransitive(s, t, u);
        if s == u && s != t { StringLeqAntisymmetric(s, t); }
      }
    } else if a.mailbox != b.mailbox && b.mailbox != c.mailbox {
      StringLeqTransitive(a.mailbox, b.mailbox, c.mailbox);
      if a.mailbox == c.mailbox { StringLeqAntisymmetric(a.mailbox, b.mailbox); }
    }
  }

  lemma RowOrderIsTotal()
    ensures TotalOrder(RowLeq)
  {
    forall a: Row, b: Row
      ensures RowLeq(a, b) || RowLeq(b, a)
    {
      StringLeqTotal(a.mailbox, b.mailbox);
      StringLeqTotal(Acl.Text(a.entry.id), Acl.Text(b.entry.id));
    }
    forall a, b, c | RowLeq(a, b) && RowLeq(b, c)
      ensures RowLeq(a, c)
    {
      RowLeqTransitive(a, b, c);
    }
  }

  /** Rows are written in that order. */
  lemma RowsInOrder(rows: Index, a: Row, b: Row) returns (i: nat, j: nat)
    requires a in rows && b in rows && WrittenFirst(a, b)
    ensures i < j < |SortBy(RowLeq, rows)| && SortBy(RowLeq, rows)[i] == a && SortBy(RowLeq, rows)[j] == b
  {
    RowOrderIsTotal();
    WrittenFirstIsStrict(a, b);
    i, j := SortByOrders(RowLeq, rows, a, b);
  }

  /** Rows the order cannot tell apart belong to one key of one mailbox. */
  lemma TiesShareKey(a: Row, b: Row)
    requires RowLeq(a, b) && RowLeq(b, a) && Valid(a.entry.id) && Valid(b.entry.id)
    ensures a.mailbox == b.mailbox && KeyOf(a.entry) == KeyOf(b.entry)
  {
    if a.mailbox != b.mailbox { StringLeqAntisymmetric(a.mailbox, b.mailbox); }
    var s, t := Acl.Text(a.entry.id), Acl.Text(b.entry.id);
    if s != t { StringLeqAntisymmetric(s, t); }
    ParseText(a.entry.id);
    ParseText(b.entry.id);
  }

  predicate Unambiguous(rows: Index) {
    forall a, b :: a in rows && b in rows && a.mailbox == b.mailbox && KeyOf(a.entry) == KeyOf(b.entry) ==> a == b
  }

  /**
   * Two processes writing the same rows in any order produce byte-identical files, if no key is
   * granted twice differently.
   */
  lemma SameRowsSameFile(a: Index, b: Index)
    requires multiset(a) == multiset(b) && Unambiguous(a) && forall r :: r in a ==> Valid(r.entry.id)
    ensures Write(a) == Write(b)
  {
    RowOrderIsTotal();
    forall i, j | 0 <= i < |a| && 0 <= j < |a| && RowLeq(a[i], a[j]) && RowLeq(a[j], a[i])
      ensures a[i] == a[j]
    {
      TiesShareKey(a[i], a[j]);
    }
    SortForgetsOrder(RowLeq, a, b);
  }
}
