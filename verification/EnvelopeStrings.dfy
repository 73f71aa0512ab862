/** The string reader of the identity check: quoted strings, literals and NIL (section 4.3 of RFC 3501). */
module EnvelopeStrings {
  import opened Basics
  import opened Envelope
  import opened ImapLines
  import opened Numbers

  datatype Reading = Reading(value: string, rest: string)

  // ---------------------------------------------------------------- the reader

  /** What follows an opening quote, up to the closing one. */
  function Unquote(s: string): Reading {
    if s == "" then Reading("", "")
    else if s[0] == '\\' then
      if |s| == 1 then Reading("", "") else Cons(s[1], Unquote(s[2..]))
    else if s[0] == '"' then Reading("", s[1..])
    else Cons(s[0], Unquote(s[1..]))
  }

  function Cons(c: char, r: Reading): Reading {
    Reading([c] + r.value, r.rest)
  }

  method ReadQuoted(s: string) returns (r: Reading)
    ensures r == Unquote(s)
  {
    var value, i := "", 0;
    assert s[0..] == s;
    while i < |s|
      invariant 0 <= i <= |s|
      invariant Unquote(s) == Reading(value + Unquote(s[i..]).value, Unquote(s[i..]).rest)
    {
      ghost var t, before := s[i..], value;
      assert t[1..] == s[i + 1..];
      assert |t| > 1 ==> t[2..] == s[i + 2..];
      if s[i] == '\\' {
        if i + 1 < |s| {
          i := i + 1;
          value := value + [s[i]];
          Regroup(before, [s[i]], Unquote(s[i + 1..]).value);
        }
      } else if s[i] == '"' {
        assert value + "" == value;
        return Reading(value, s[i + 1..]);
      } else {
        value := value + [s[i]];
        Regroup(before, [s[i]], Unquote(s[i + 1..]).value);
      }
      i := i + 1;
    }
    assert value + "" == value;
    r := Reading(value, "");
  }

  function TrimSpaces(s: string): string {
    if s != "" && s[0] == ' ' then TrimSpaces(s[1..]) else s
  }

  /** A literal's text: the count of characters its braces announce, or all there is. */
  function Counted(n: nat, body: string): Reading {
    if n <= |body| then Reading(body[..n], body[n..]) else Reading(body, "")
  }

  function ReadLiteral(s: string): Reading {
    var end := IndexOf(s, "}");
    if end <= 0 then Reading("", s)
    else
      var n := Atoi(s[1..end]);
      if n.None? || n.value < 0 then Reading("", s)
      else Counted(n.value, if HasPrefix(s[end + 1..], " ") then s[end + 2..] else s[end + 1..])
  }

  function ReadString(s: string): Reading {
    var t := TrimSpaces(s);
    if HasPrefix(t, "NIL") then Reading("NIL", t[3..])
    else if HasPrefix(t, "{") then ReadLiteral(t)
    else if !HasPrefix(t, "\"") then Reading("", t)
    else Unquote(t[1..])
  }

  function SubjectFrom(rest: string): string {
    ReadString(ReadString(rest).rest).value
  }

  // ---------------------------------------------------------------- the printer

  /** The three forms a server may send a string in. */
  datatype Form = AsNil | AsQuoted(text: string) | AsLiteral(text: string)

  function Value(f: Form): string {
    if f.AsNil? then "NIL" else f.text
  }

  /** A string as the server sends it. */
  function Sent(f: Form): string {
    match f
    case AsNil => Wire(Nil)
    case AsQuoted(s) => Wire(Quoted(s))
    case AsLiteral(s) => Wire(Literal(s))
  }

  predicate HoldsBreak(f: Form) {
    !f.AsNil? && '\n' in f.text
  }

  /** How many characters the joined lines lack: the carriage returns in front of a literal's line feeds. */
  function Dropped(f: Form): int {
    if f.AsLiteral? then |f.text| - |Lined(f.text)| else 0
  }

  lemma UnquoteOne(c: char, t: string)
    ensures Unquote(EscapeOne(c) + t) == Cons(c, Unquote(t))
  {
    var line := EscapeOne(c) + t;
    assert line[|EscapeOne(c)|..] == t;
  }

  lemma {:induction false} UnquoteEscaped(s: string, r: string)
    ensures Unquote(Escape(s) + ['"'] + r) == Reading(s, r)
  {
    if s == "" {
      assert (Escape(s) + ['"'] + r)[1..] == r;
    } else {
      UnquoteEscaped(s[1..], r);
      UnquoteOne(s[0], Escape(s[1..]) + ['"'] + r);
      Regroup(EscapeOne(s[0]), Escape(s[1..]), ['"']);
      Regroup(EscapeOne(s[0]), Escape(s[1..]) + ['"'], r);
      assert s == [s[0]] + s[1..];
    }
  }

  lemma {:induction false} BraceAfterDigits(digits: string, rest: string)
    requires forall c :: c in digits ==> IsDigit(c)
    ensures IndexOf(digits + ['}'] + rest, "}") == |digits|
  {
    var s := digits + ['}'] + rest;
    if digits == "" {
      assert s[..1] == "}";
    } else {
      assert digits[0] in digits && s[..1] == [digits[0]];
      BraceAfterDigits(digits[1..], rest);
      assert s[1..] == digits[1..] + ['}'] + rest;
    }
  }

  lemma BraceFound(line: string, digits: string, tail: string)
    requires AllDigits(digits) && line == ['{'] + (digits + ['}'] + tail)
    ensures IndexOf(line, "}") == |digits| + 1
  {
    BraceAfterDigits(digits, tail);
    assert line[1..] == digits + ['}'] + tail;
    assert line[..1] == ['{'];
  }

  lemma BraceParts(line: string, digits: string, tail: string)
    requires line == ['{'] + (digits + ['}'] + tail)
    ensures line[1..|digits| + 1] == digits && line[|digits| + 2..] == tail
  {
  }

  function SkipOne(s: string): string {
    if HasPrefix(s, " ") then s[1..] else s
  }

  lemma LiteralCounted(line: string, digits: string, tail: string)
    requires AllDigits(digits) && NumberOf(digits) >= 0 && line == ['{'] + (digits + ['}'] + tail)
    ensures ReadLiteral(line) == Counted(NumberOf(digits), SkipOne(tail))
  {
    BraceFound(line, digits, tail);
    BraceParts(line, digits, tail);
    assert HasPrefix(tail, " ") ==> line[|digits| + 3..] == tail[1..];
  }

  lemma AnnouncedCounted(n: nat, tail: string)
    ensures ReadLiteral(['{'] + Decimal(n) + ['}'] + [' '] + tail) == Counted(n, tail)
  {
    var line := ['{'] + Decimal(n) + ['}'] + [' '] + tail;
    DecimalReadsBack(n);
    assert line == ['{'] + (Decimal(n) + ['}'] + ([' '] + tail)) by {
      Regroup(['{'], Decimal(n), ['}']);
      Regroup(['{'] + Decimal(n) + ['}'], [' '], tail);
      Regroup(['{'], Decimal(n) + ['}'], [' '] + tail);
    }
    LiteralCounted(line, Decimal(n), [' '] + tail);
    assert ([' '] + tail)[..1] == " " && ([' '] + tail)[1..] == tail;
  }

  /** Whatever a literal holds, the reader takes its announced length off the joined lines. */
  lemma LiteralReads(s: string, r: string)
    requires !BreakNext(r)
    ensures ReadString(Lined(Sent(AsLiteral(s)) + r)) == Counted(|s|, Lined(s) + Lined(r))
  {
    LinedLiteral(s, r);
    Regroup(Announce(s), Lined(s), Lined(r));
    AnnouncedCounted(|s|, Lined(s) + Lined(r));
    LiteralIsNext(Announce(s) + (Lined(s) + Lined(r)));
  }

  lemma NotNil(line: string)
    requires line != "" && line[0] != 'N'
    ensures !HasPrefix(line, "NIL")
  {
    assert |line| >= 3 ==> line[..3][0] == line[0];
  }

  lemma QuotedReadsBack(s: string, r: string)
    ensures ReadString(Show(Quoted(s)) + r) == Reading(s, r)
  {
    var line := Show(Quoted(s)) + r;
    assert line[0] == '"' && line[..1] == ['"'];
    assert line[1..] == Escape(s) + ['"'] + r;
    NotNil(line);
    UnquoteEscaped(s, r);
  }

  lemma {:induction false} LinedShrinks(s: string)
    ensures |Lined(s)| <= |s|
  {
    if s != "" { LinedShrinks(s[1..]); }
  }

  lemma {:induction false} EscapeBreaks(s: string, t: string)
    requires !BreakNext(t)
    ensures BreakNext(Escape(s) + t) <==> BreakNext(s)
  {
    if s == "" {
      assert Escape(s) + t == t;
    } else {
      assert Escape(s) + t == EscapeOne(s[0]) + (Escape(s[1..]) + t);
      if s[0] == '\r' {
        assert (Escape(s) + t)[1..] == Escape(s[1..]) + t;
        EscapeBreaks(s[1..], t);
      }
    }
  }

  lemma EscapeCons(c: char, s: string)
    ensures Escape([c] + s) == EscapeOne(c) + Escape(s)
  {
    assert ([c] + s)[1..] == s;
  }

  /** A line break in a quoted string becomes a space in it, and what follows is where it was. */
  lemma {:induction false} LinedEscape(s: string, t: string)
    requires !BreakNext(t)
    ensures Lined(Escape(s) + t) == Escape(Lined(s)) + Lined(t)
  {
    if s == "" {
      assert Escape(s) + t == t;
    } else {
      var rest := Escape(s[1..]) + t;
      LinedEscape(s[1..], t);
      EscapeBreaks(s, t);
      Regroup(EscapeOne(s[0]), Escape(s[1..]), t);
      LinedEscapeStep(s, t, EscapeOne(s[0]) + rest, rest);
    }
  }

  lemma LinedEscapeStep(s: string, t: string, line: string, rest: string)
    requires s != "" && line == EscapeOne(s[0]) + rest && (BreakNext(line) <==> BreakNext(s))
    requires Lined(rest) == Escape(Lined(s[1..])) + Lined(t)
    ensures Lined(line) == Escape(Lined(s)) + Lined(t)
  {
    if s[0] == '\n' {
      assert line[1..] == rest;
      EscapeCons(' ', Lined(s[1..]));
      Regroup([' '], Escape(Lined(s[1..])), Lined(t));
    } else if BreakNext(s) {
      assert line[1..] == rest;
    } else {
      LinedEscapeOne(s[0], rest);
      EscapeCons(s[0], Lined(s[1..]));
      Regroup(EscapeOne(s[0]), Escape(Lined(s[1..])), Lined(t));
    }
  }

  lemma LinedEscapeOne(c: char, rest: string)
    requires c != '\n' && !BreakNext(EscapeOne(c) + rest)
    ensures Lined(EscapeOne(c) + rest) == EscapeOne(c) + Lined(rest)
  {
    var line := EscapeOne(c) + rest;
    if c == '"' || c == '\\' {
      assert line[1..] == [c] + rest && line[1..][1..] == rest;
    } else {
      assert line[1..] == rest;
    }
  }

  lemma QuotedReads(s: string, r: string)
    requires !BreakNext(r)
    ensures ReadString(Lined(Sent(AsQuoted(s)) + r)) == Reading(Lined(s), Lined(r))
  {
    var close := ['"'] + r;
    var line := ['"'] + (Escape(s) + close);
    assert Sent(AsQuoted(s)) + r == line by {
      Regroup(['"'] + Escape(s), ['"'], r);
      Regroup(['"'], Escape(s), close);
    }
    assert line[1..] == Escape(s) + close && close[1..] == r;
    LinedEscape(s, close);
    assert Lined(close) == ['"'] + Lined(r);
    assert Lined(line) == ['"'] + (Escape(Lined(s)) + (['"'] + Lined(r)));
    assert Lined(line) == Show(Quoted(Lined(s))) + Lined(r) by {
      Regroup(['"'], Escape(Lined(s)), ['"'] + Lined(r));
      Regroup(['"'] + Escape(Lined(s)), ['"'], Lined(r));
    }
    QuotedReadsBack(Lined(s), Lined(r));
  }

  lemma NilReads(r: string)
    requires !BreakNext(r)
    ensures ReadString(Lined(Sent(AsNil) + r)) == Reading("NIL", Lined(r))
  {
    LinedPlain("NIL", r);
    var line := "NIL" + Lined(r);
    assert line[..3] == "NIL" && line[3..] == Lined(r);
  }

  /** What any string leaves for the next reader: its remainder, less the characters a literal's line breaks lost. */
  lemma RemainderAfter(f: Form, r: string)
    requires !BreakNext(r) && Dropped(f) <= |Lined(r)|
    ensures Dropped(f) >= 0
    ensures ReadString(Lined(Sent(f) + r)).rest == Lined(r)[Dropped(f)..]
  {
    match f
    case AsNil => NilReads(r);
    case AsQuoted(s) => QuotedReads(s, r);
    case AsLiteral(s) =>
      LinedShrinks(s);
      LiteralReads(s, r);
      assert (Lined(s) + Lined(r))[|s|..] == Lined(r)[Dropped(f)..];
  }

  lemma {:induction false} UnquoteFrom(s: string, c: char)
    requires c in Unquote(s).value
    ensures c in s
    decreases |s|
  {
    if s[0] == '\\' {
      if c != s[1] { UnquoteFrom(s[2..], c); }
    } else if c != s[0] {
      UnquoteFrom(s[1..], c);
    }
  }

  lemma {:induction false} TrimSpacesFrom(s: string, c: char)
    requires c in TrimSpaces(s)
    ensures c in s
  {
    if s[0] == ' ' && c !in s[1..] { TrimSpacesFrom(s[1..], c); }
  }

  /** A reader returns no character it was not given. */
  lemma ReadFrom(s: string, c: char)
    requires c in ReadString(s).value
    ensures c in s || c in "NIL"
  {
    var t := TrimSpaces(s);
    if c in t {
      TrimSpacesFrom(s, c);
    } else if !HasPrefix(t, "NIL") && HasPrefix(t, "\"") {
      UnquoteFrom(t[1..], c);
    }
  }

  lemma BreakNeverReads(wire: string, f: Form)
    requires HoldsBreak(f)
    ensures ReadString(Lined(wire)).value != Value(f)
  {
    LinedHasNoBreak(wire);
    if ReadString(Lined(wire)).value == Value(f) { ReadFrom(Lined(wire), '\n'); }
  }

  /**
   * Whatever follows a string, reading it from the joined lines gives back text and remainder
   * exactly, if and only if the text holds no line feed.
   */
  lemma ReadsBackIff(f: Form, r: string)
    requires !BreakNext(r)
    ensures ReadString(Lined(Sent(f) + r)) == Reading(Value(f), Lined(r)) <==> !HoldsBreak(f)
  {
    if HoldsBreak(f) {
      BreakNeverReads(Sent(f) + r, f);
    } else {
      match f
      case AsNil => NilReads(r);
      case AsQuoted(s) =>
        LinedUnbroken(s);
        QuotedReads(s, r);
      case AsLiteral(s) =>
        LinedUnbroken(s);
        LiteralReads(s, r);
        assert (s + Lined(r))[..|s|] == s && (s + Lined(r))[|s|..] == Lined(r);
    }
  }

  /** A CRLF in a literal: the value has a space for it and one character of the remainder. */
  lemma BrokenLiteralReads(a: string, b: string, c: char, r: string)
    requires '\n' !in a && '\r' !in a && '\n' !in b && c != '\n' && c != '\r'
    ensures ReadString(Lined(Sent(AsLiteral(a + ['\r', '\n'] + b)) + ([c] + r)))
         == Reading(a + [' '] + b + [c], Lined(r))
  {
    var s := a + ['\r', '\n'] + b;
    LiteralReads(s, [c] + r);
    assert s == (a + ['\r']) + ['\n'] + b;
    LinedLine(a + ['\r'], b);
    assert (a + ['\r'])[..|a|] == a;
    TrimmedPlain(a);
    LinedUnbroken(b);
    assert Lined(s) == a + [' '] + b;
    assert ([c] + r)[1..] == r && Lined([c] + r) == [c] + Lined(r);
    CountedAcross(a + [' '] + b, c, Lined(r), |s|);
  }

  /** A count of one more than the text takes a character of what follows. */
  lemma CountedAcross(text: string, c: char, rest: string, n: nat)
    requires n == |text| + 1
    ensures Counted(n, text + ([c] + rest)) == Reading(text + [c], rest)
  {
    var seen := text + ([c] + rest);
    assert seen[..n] == text + [c] && seen[n..] == rest;
  }

  lemma LiteralIsNext(line: string)
    requires line != "" && line[0] == '{'
    ensures ReadString(line) == ReadLiteral(line)
  {
    NotNil(line);
    assert line[..1] == ['{'];
  }

  lemma SpaceIsSkipped(s: string)
    ensures ReadString([' '] + s) == ReadString(s)
  {
    assert ([' '] + s)[1..] == s;
  }

  lemma SentStartsPlain(f: Form, r: string)
    ensures !BreakNext(Sent(f) + r)
  {
    match f
    case AsNil => WireStartsPlain(Nil, r);
    case AsQuoted(s) => WireStartsPlain(Quoted(s), r);
    case AsLiteral(s) => WireStartsPlain(Literal(s), r);
  }

  /**
   * The subject reader returns the second field of an envelope, if and only if that holds no line
   * feed, whatever the date holds that costs the joined lines at most the space behind it.
   */
  lemma SubjectIsSecondFieldIff(date: Form, subject: Form, r: string)
    requires Dropped(date) <= 1 && !BreakNext(r)
    ensures SubjectFrom(Lined(Sent(date) + ([' '] + (Sent(subject) + r)))) == Value(subject) <==> !HoldsBreak(subject)
  {
    var next := Sent(subject) + r;
    SentStartsPlain(subject, r);
    assert ([' '] + next)[1..] == next && !BreakNext([' '] + next);
    assert Lined([' '] + next) == [' '] + Lined(next);
    RemainderAfter(date, [' '] + next);
    SpaceIsSkipped(Lined(next));
    assert ([' '] + Lined(next))[0..] == [' '] + Lined(next) && ([' '] + Lined(next))[1..] == Lined(next);
    ReadsBackIff(subject, r);
    if HoldsBreak(subject) { BreakNeverReads(next, subject); }
  }

  /** A date that costs more is read on into the subject: the reader starts that much later. */
  lemma SubjectReadLate(date: Form, rest: string)
    requires !BreakNext(rest) && Dropped(date) <= |Lined(rest)|
    ensures Dropped(date) >= 0
    ensures SubjectFrom(Lined(Sent(date) + rest)) == ReadString(Lined(rest)[Dropped(date)..]).value
  {
    RemainderAfter(date, rest);
  }

  // ---------------------------------------------------------------- what is no string

  lemma {:induction false} UnquotePlain(s: string)
    requires '"' !in s && '\\' !in s
    ensures Unquote(s) == Reading(s, "")
  {
    if s != "" {
      UnquotePlain(s[1..]);
      assert s == [s[0]] + s[1..];
    }
  }

  /** A quoted string that is not closed runs to the end; blanks in front are skipped. */
  lemma UnclosedReads(s: string)
    requires '"' !in s && '\\' !in s
    ensures ReadString("\"" + s) == Reading(s, "") && ReadString(" \"" + s) == Reading(s, "")
  {
    UnquotePlain(s);
    var t := "\"" + s;
    assert t[1..] == s && (" \"" + s)[1..] == t && TrimSpaces(t) == t && t[..1] == "\"";
  }

  /** What starts like none of the three forms gives nothing and is left as it is. */
  lemma NoStringReads(s: string)
    requires s == "" || s[0] !in {' ', 'N', '{', '"'}
    ensures ReadString(s) == Reading("", s)
  {
    if s != "" { assert |s| >= 3 ==> s[..3][0] == s[0]; }
  }

  lemma {:induction false} NoBrace(s: string)
    requires '}' !in s
    ensures IndexOf(s, "}") == -1
  {
    if s != "" {
      assert s[..1] == [s[0]] && s[0] in s;
      NoBrace(s[1..]);
    }
  }

  lemma {:induction false} BraceAfter(word: string, rest: string)
    requires '}' !in word
    ensures IndexOf(word + (['}'] + rest), "}") == |word|
  {
    var s := word + (['}'] + rest);
    if word == "" {
      assert s[..1] == "}";
    } else {
      assert s[..1] == [word[0]] && s[1..] == word[1..] + (['}'] + rest) && word[0] in word;
      BraceAfter(word[1..], rest);
    }
  }

  lemma BracedReads(word: string, rest: string)
    requires '}' !in word
    ensures var s := (['{'] + word) + (['}'] + rest);
            ReadString(s) == if Atoi(word).None? || Atoi(word).value < 0 then Reading("", s)
                             else Counted(Atoi(word).value, if HasPrefix(rest, " ") then rest[1..] else rest)
  {
    var s := (['{'] + word) + (['}'] + rest);
    BraceAfter(['{'] + word, rest);
    var end := IndexOf(s, "}");
    assert s[..1] == "{" && s[0] == '{' && TrimSpaces(s) == s && !HasPrefix(s, "NIL");
    assert s[1..end] == word && s[end + 1..] == rest;
    if HasPrefix(rest, " ") { assert s[end + 2..] == rest[1..]; }
  }

  /** So does a brace that is not closed, or holds no number. */
  lemma BadLiteralReads(word: string, rest: string)
    requires '}' !in word && Atoi(word).None?
    ensures ReadString(['{'] + word) == Reading("", ['{'] + word)
    ensures ReadString((['{'] + word) + (['}'] + rest)) == Reading("", (['{'] + word) + (['}'] + rest))
  {
    BracedReads(word, rest);
    NoBrace(['{'] + word);
    assert (['{'] + word)[..1] == "{";
  }

  /** A literal that promises more than there is gives what there is. */
  lemma ShortLiteralReads(n: nat, body: string)
    requires n > |body|
    ensures ReadString((['{'] + Decimal(n)) + (['}'] + ([' '] + body))) == Reading(body, "")
  {
    DecimalReadsBack(n);
    assert '}' !in Decimal(n);
    BracedReads(Decimal(n), [' '] + body);
    assert ([' '] + body)[..1] == " " && ([' '] + body)[1..] == body;
  }
}
