/** Reading fields back out of an IMAP ENVELOPE (section 7.4.2 of RFC 3501; strings as in section 4.3). */
module Envelope {
  import opened Basics
  import opened ImapLines
  import opened Numbers
  import opened Text

  // ---------------------------------------------------------------- the printer

  /** A field: NIL, a quoted string, a literal, or a parenthesised list with or without spaces between its items. */
  datatype Node =
    | Nil
    | Quoted(text: string)
    | Literal(text: string)
    | List(items: seq<Node>, spaced: bool)

  function Escape(s: string): string {
    if s == "" then ""
    else EscapeOne(s[0]) + Escape(s[1..])
  }

  /** A literal's announced length. */
  function Braced(s: string): string {
    ['{'] + Decimal(|s|) + ['}']
  }

  /** A field as the server sends it. */
  function Wire(n: Node): string
    decreases n, 0
  {
    match n
    case Nil => "NIL"
    case Quoted(s) => ['"'] + Escape(s) + ['"']
    case Literal(s) => Braced(s) + ['\r', '\n'] + s
    case List(items, spaced) => ['('] + WireAll(items, spaced) + [')']
  }

  function WireAll(items: seq<Node>, spaced: bool): string
    decreases items, 1
  {
    if items == [] then ""
    else Wire(items[0]) + (if |items| > 1 && spaced then [' '] else []) + WireAll(items[1..], spaced)
  }

  function Announce(s: string): string {
    Braced(s) + [' ']
  }

  /** A field as it stands in the joined lines. */
  function Show(n: Node): string
    decreases n, 0
  {
    match n
    case Nil => "NIL"
    case Quoted(s) => ['"'] + Escape(s) + ['"']
    case Literal(s) => Announce(s) + Lined(s)
    case List(items, spaced) => ['('] + ShowAll(items, spaced) + [')']
  }

  function ShowAll(items: seq<Node>, spaced: bool): string
    decreases items, 1
  {
    if items == [] then ""
    else Show(items[0]) + (if |items| > 1 && spaced then [' '] else []) + ShowAll(items[1..], spaced)
  }

  // ---------------------------------------------------------------- the depth-and-quote scan

  /** Where the scan meets the parenthesis that brings the depth to zero, counted from here; -1 if nowhere. */
  function ScanFrom(s: string, depth: nat, quoted: bool): (end: int)
    ensures -1 <= end < |s|
    decreases |s|
  {
    if s == "" then -1
    else if s[0] == '\\' && quoted then After(2, ScanFrom(if |s| > 1 then s[2..] else "", depth, quoted))
    else if s[0] == '"' then After(1, ScanFrom(s[1..], depth, !quoted))
    else if quoted then After(1, ScanFrom(s[1..], depth, quoted))
    else if s[0] == '(' then After(1, ScanFrom(s[1..], depth + 1, quoted))
    else if s[0] == ')' && depth == 1 then 0
    else if s[0] == ')' then After(1, ScanFrom(s[1..], if depth == 0 then 0 else depth - 1, quoted))
    else After(1, ScanFrom(s[1..], depth, quoted))
  }

  function After(k: nat, end: int): int {
    if end < 0 then -1 else end + k
  }

  method FindEnd(rest: string) returns (end: int)
    ensures end == ScanFrom(rest, 1, false)
  {
    var depth, quoted, i := 1, false, 0;
    end := -1;
    assert rest[0..] == rest;
    while i < |rest|
      invariant 0 <= i <= |rest| && depth >= 1 && end == -1
      invariant ScanFrom(rest, 1, false) == After(i, ScanFrom(rest[i..], depth, quoted))
      decreases |rest| - i
    {
      var c := rest[i];
      ghost var s := rest[i..];
      assert s[1..] == rest[i + 1..];
      assert |s| > 1 ==> s[2..] == rest[i + 2..];
      if c == '\\' && quoted {
        if i + 1 == |rest| {
          return;
        }
        i := i + 1;
      } else if c == '"' {
        quoted := !quoted;
      } else if quoted {
      } else if c == '(' {
        depth := depth + 1;
      } else if c == ')' {
        depth := depth - 1;
        if depth == 0 {
          end := i;
          return;
        }
      }
      i := i + 1;
    }
  }

  function EscapeOne(c: char): string {
    if c == '"' || c == '\\' then ['\\', c] else [c]
  }

  lemma SkipEscapedOne(c: char, t: string, depth: nat)
    ensures ScanFrom(EscapeOne(c) + t, depth, true) == After(|EscapeOne(c)|, ScanFrom(t, depth, true))
  {
    var line := EscapeOne(c) + t;
    assert line[|EscapeOne(c)|..] == t;
  }

  lemma {:induction false} SkipEscaped(s: string, t: string, depth: nat)
    ensures ScanFrom(Escape(s) + ['"'] + t, depth, true) == After(|Escape(s)| + 1, ScanFrom(t, depth, false))
  {
    if s == "" {
      assert (Escape(s) + ['"'] + t)[1..] == t;
    } else {
      SkipEscaped(s[1..], t, depth);
      SkipEscapedOne(s[0], Escape(s[1..]) + ['"'] + t, depth);
      assert Escape(s) + ['"'] + t == EscapeOne(s[0]) + (Escape(s[1..]) + ['"'] + t);
    }
  }

  /** Where the scan stands: past its end, at a depth in or out of quotes, or behind a backslash in quotes. */
  datatype Standing = Stopped | At(depth: nat, quoted: bool) | Escaping(depth: nat)

  function Onward(st: Standing, c: char): Standing {
    match st
    case Stopped => Stopped
    case Escaping(d) => At(d, true)
    case At(d, q) =>
      if c == '\\' && q then Escaping(d)
      else if c == '"' then At(d, !q)
      else if q then st
      else if c == '(' then At(d + 1, q)
      else if c == ')' && d == 1 then Stopped
      else if c == ')' then At(if d == 0 then 0 else d - 1, q)
      else st
  }

  /** Where a text takes the scan. */
  function Through(s: string, st: Standing): Standing
    decreases s
  {
    if s == "" then st else Through(s[1..], Onward(st, s[0]))
  }

  lemma {:induction false} StaysStopped(s: string)
    ensures Through(s, Stopped) == Stopped
  {
    if s != "" { StaysStopped(s[1..]); }
  }

  /** What the scan does with a text that leads there, and then with what follows it. */
  predicate Leads(end: int, length: nat, st: Standing, t: string) {
    match st
    case At(d, q) => end == After(length, ScanFrom(t, d, q))
    case Stopped => 0 <= end < length
    case Escaping(d) => end == After(length + 1, ScanFrom(if t == "" then "" else t[1..], d, true))
  }

  lemma LeadsOn(end: int, k: nat, length: nat, st: Standing, t: string)
    requires Leads(end, length, st, t)
    ensures Leads(After(k, end), length + k, st, t)
  {
  }

  lemma OneOn(s: string, d: nat, q: bool)
    requires s != "" && !(s[0] == '\\' && q)
    ensures var next := Onward(At(d, q), s[0]);
            if next.At? then ScanFrom(s, d, q) == After(1, ScanFrom(s[1..], next.depth, next.quoted))
            else next.Stopped? && ScanFrom(s, d, q) == 0
  {
    if s[0] == '"' {
    } else if q {
    } else if s[0] == '(' {
    } else if s[0] == ')' && d == 1 {
    }
  }

  /** Scanning a text and what follows it is scanning on from where the text leads. */
  lemma {:induction false} ScanThrough(s: string, t: string, d: nat, q: bool)
    ensures Leads(ScanFrom(s + t, d, q), |s|, Through(s, At(d, q)), t)
    decreases |s|
  {
    if s == "" {
      assert s + t == t;
    } else if s[0] == '\\' && q {
      ScanEscape(s, t, d);
    } else {
      var next := Onward(At(d, q), s[0]);
      assert (s + t)[1..] == s[1..] + t;
      OneOn(s + t, d, q);
      if next.At? {
        ScanThrough(s[1..], t, next.depth, next.quoted);
        LeadsOn(ScanFrom(s[1..] + t, next.depth, next.quoted), 1, |s| - 1, Through(s, At(d, q)), t);
      } else {
        StaysStopped(s[1..]);
      }
    }
  }

  lemma {:induction false} ScanEscape(s: string, t: string, d: nat)
    requires s != "" && s[0] == '\\'
    ensures Leads(ScanFrom(s + t, d, true), |s|, Through(s, At(d, true)), t)
    decreases |s|, 0
  {
    if |s| > 1 {
      assert s[1..][1..] == s[2..] && (s + t)[2..] == s[2..] + t;
      assert Through(s, At(d, true)) == Through(s[1..], Escaping(d)) == Through(s[2..], At(d, true));
      ScanThrough(s[2..], t, d, true);
      assert ScanFrom(s + t, d, true) == After(2, ScanFrom(s[2..] + t, d, true));
      LeadsOn(ScanFrom(s[2..] + t, d, true), 2, |s| - 2, Through(s[2..], At(d, true)), t);
    } else {
      assert s[1..] == "" && (s + t)[0] == '\\';
      assert Through(s, At(d, true)) == Escaping(d);
      if t == "" {
        assert s + t == s && ScanFrom(s, d, true) == After(2, ScanFrom("", d, true));
      } else {
        assert (s + t)[2..] == t[1..];
      }
    }
  }

  /** A text that leaves the scan as it found it. */
  predicate Neutral(s: string, depth: nat) {
    Through(s, At(depth, false)) == At(depth, false)
  }

  predicate Skipped(s: string, depth: nat, t: string) {
    ScanFrom(s + t, depth, false) == After(|s|, ScanFrom(t, depth, false))
  }

  /** The scan passes over the text, whatever follows it. */
  ghost predicate PassedOver(s: string, depth: nat) {
    forall t :: Skipped(s, depth, t)
  }

  lemma SkipNeutral(s: string, t: string, depth: nat)
    requires Neutral(s, depth)
    ensures Skipped(s, depth, t)
  {
    ScanThrough(s, t, depth, false);
  }

  function Closers(n: nat): string {
    if n == 0 then "" else [')'] + Closers(n - 1)
  }

  lemma {:induction false} ScanClosers(n: nat, depth: nat, quoted: bool)
    requires depth >= 1
    ensures ScanFrom(Closers(n), depth, quoted) == if quoted || n < depth then -1 else depth - 1
  {
    if n > 0 {
      assert Closers(n)[1..] == Closers(n - 1);
      if quoted || depth > 1 { ScanClosers(n - 1, if quoted then depth else depth - 1, quoted); }
    }
  }

  /** The depth never falls to zero without the scan stopping. */
  lemma {:induction false} ThroughDepth(s: string, st: Standing)
    requires st.Stopped? || st.depth >= 1
    ensures var end := Through(s, st); end.Stopped? || end.depth >= 1
    decreases s
  {
    if s != "" { ThroughDepth(s[1..], Onward(st, s[0])); }
  }

  /** A text is passed over, whatever follows it, if and only if it is neutral. */
  lemma SkippedIffNeutral(s: string, depth: nat)
    requires depth >= 1
    ensures PassedOver(s, depth) <==> Neutral(s, depth)
  {
    if Neutral(s, depth) {
      forall t ensures Skipped(s, depth, t) { SkipNeutral(s, t, depth); }
    } else {
      var st := Through(s, At(depth, false));
      ThroughDepth(s, At(depth, false));
      ScanThrough(s, "", depth, false);
      ScanThrough(s, Closers(depth), depth, false);
      ScanClosers(depth, depth, false);
      if st.At? {
        ScanClosers(depth, st.depth, st.quoted);
      } else if st.Escaping? {
        assert Closers(depth)[1..] == Closers(depth - 1);
        ScanClosers(depth - 1, st.depth, true);
      }
      assert !Skipped(s, depth, "") || !Skipped(s, depth, Closers(depth));
    }
  }

  predicate Bland(c: char) { c != '"' && c != '(' && c != ')' }

  lemma {:induction false} BlandNeutral(p: string, depth: nat)
    requires forall c :: c in p ==> Bland(c)
    ensures Neutral(p, depth)
  {
    if p != "" {
      assert p[0] in p;
      BlandNeutral(p[1..], depth);
    }
  }

  lemma SkipBland(p: string, t: string, depth: nat)
    requires forall c :: c in p ==> Bland(c)
    ensures ScanFrom(p + t, depth, false) == After(|p|, ScanFrom(t, depth, false))
  {
    BlandNeutral(p, depth);
    SkipNeutral(p, t, depth);
  }

  lemma SkipList(inner: string, t: string, depth: nat)
    requires depth >= 1
    requires ScanFrom(inner + ([')'] + t), depth + 1, false) == After(|inner|, ScanFrom([')'] + t, depth + 1, false))
    ensures ScanFrom(['('] + inner + [')'] + t, depth, false) == After(|inner| + 2, ScanFrom(t, depth, false))
  {
    var line := ['('] + inner + [')'] + t;
    assert line[1..] == inner + ([')'] + t);
    assert ([')'] + t)[1..] == t;
  }

  lemma SkipQuoted(s: string, t: string, depth: nat)
    ensures ScanFrom(['"'] + Escape(s) + ['"'] + t, depth, false) == After(|Escape(s)| + 2, ScanFrom(t, depth, false))
  {
    SkipEscaped(s, t, depth);
    var line := ['"'] + Escape(s) + ['"'] + t;
    assert line[1..] == Escape(s) + ['"'] + t;
  }

  /** Every literal of the field leaves the scan as it found it: the scan does not know where a literal ends. */
  predicate Tame(n: Node, depth: nat)
    decreases n, 0
  {
    match n
    case Literal(s) => Neutral(Lined(s), depth)
    case List(items, _) => AllTame(items, depth + 1)
    case _ => true
  }

  predicate AllTame(items: seq<Node>, depth: nat)
    decreases items, 1
  {
    items == [] || (Tame(items[0], depth) && AllTame(items[1..], depth))
  }

  lemma AnnounceBland(s: string)
    ensures forall c :: c in Announce(s) ==> Bland(c)
  {
    DecimalReadsBack(|s|);
  }

  predicate LiteralFree(n: Node)
    decreases n, 0
  {
    match n
    case Literal(_) => false
    case List(items, _) => AllLiteralFree(items)
    case _ => true
  }

  predicate AllLiteralFree(items: seq<Node>)
    decreases items, 1
  {
    items == [] || (LiteralFree(items[0]) && AllLiteralFree(items[1..]))
  }

  /** A field without literals is tame at any depth, whatever its strings hold. */
  lemma {:induction false} LiteralFreeTame(n: Node, depth: nat)
    requires LiteralFree(n)
    ensures Tame(n, depth)
    decreases n, 0
  {
    if n.List? { AllLiteralFreeTame(n.items, depth + 1); }
  }

  lemma {:induction false} AllLiteralFreeTame(items: seq<Node>, depth: nat)
    requires AllLiteralFree(items)
    ensures AllTame(items, depth)
    decreases items, 1
  {
    if items != [] {
      LiteralFreeTame(items[0], depth);
      AllLiteralFreeTame(items[1..], depth);
    }
  }

  /** Over a whole field the scan neither stops nor changes depth. */
  lemma {:induction false} SkipNode(n: Node, t: string, depth: nat)
    requires depth >= 1 && Tame(n, depth)
    ensures ScanFrom(Show(n) + t, depth, false) == After(|Show(n)|, ScanFrom(t, depth, false))
    decreases n, 0
  {
    match n
    case Nil => SkipBland("NIL", t, depth);
    case Quoted(s) => SkipQuoted(s, t, depth);
    case Literal(s) =>
      AnnounceBland(s);
      SkipNeutral(Lined(s), t, depth);
      SkipBland(Announce(s), Lined(s) + t, depth);
      Regroup(Announce(s), Lined(s), t);
    case List(items, spaced) =>
      SkipAll(items, spaced, [')'] + t, depth + 1);
      SkipList(ShowAll(items, spaced), t, depth);
  }

  lemma {:induction false} SkipAll(items: seq<Node>, spaced: bool, t: string, depth: nat)
    requires depth >= 1 && AllTame(items, depth)
    ensures ScanFrom(ShowAll(items, spaced) + t, depth, false)
         == After(|ShowAll(items, spaced)|, ScanFrom(t, depth, false))
    decreases items, 1
  {
    if items == [] {
      assert ShowAll(items, spaced) + t == t;
    } else {
      var gap: string := if |items| > 1 && spaced then [' '] else [];
      var rest := ShowAll(items[1..], spaced);
      SkipNode(items[0], gap + (rest + t), depth);
      SkipBland(gap, rest + t, depth);
      SkipAll(items[1..], spaced, t, depth);
      Regroup(Show(items[0]) + gap, rest, t);
      Regroup(Show(items[0]), gap, rest + t);
    }
  }

  /** For one literal: the scan passes over it, whatever follows, if and only if its text is neutral. */
  lemma LiteralSkippedIff(s: string, depth: nat)
    requires depth >= 1
    ensures PassedOver(Show(Literal(s)), depth) <==> Neutral(Lined(s), depth)
  {
    AnnounceBland(s);
    BlandNeutral(Announce(s), depth);
    ThroughConcat(Announce(s), Lined(s), At(depth, false));
    var shown := Show(Literal(s));
    assert shown == Announce(s) + Lined(s);
    assert Neutral(shown, depth) <==> Neutral(Lined(s), depth);
    SkippedIffNeutral(shown, depth);
  }

  lemma {:induction false} ThroughConcat(a: string, b: string, st: Standing)
    ensures Through(a + b, st) == Through(b, Through(a, st))
    decreases a
  {
    if a == "" {
      assert a + b == b;
    } else {
      assert (a + b)[1..] == a[1..] + b;
      ThroughConcat(a[1..], b, Onward(st, a[0]));
    }
  }

  /** The scan stops at the envelope's own closing parenthesis, whatever else the fields hold. */
  lemma ScanStopsAtOwnParen(fields: seq<Node>, tail: string)
    requires AllTame(fields, 1)
    ensures ScanFrom(ShowAll(fields, true) + [')'] + tail, 1, false) == |ShowAll(fields, true)|
  {
    SkipAll(fields, true, [')'] + tail, 1);
    assert ShowAll(fields, true) + [')'] + tail == ShowAll(fields, true) + ([')'] + tail);
  }

  /** A literal with a lone quote in it: the scan runs past the end of the envelope, and no id is read. */
  lemma QuoteInLiteralHidesId()
    ensures IdFrom(ShowAll([Literal("\""), Quoted("x")], true) + [')']) == ""
  {
    var fields := [Literal("\""), Quoted("x")];
    assert fields[1..] == [Quoted("x")] && fields[1..][1..] == [];
    assert Escape("x") == "x" by { assert "x"[1..] == ""; }
    assert ShowAll(fields[1..], true) == "\"x\"";
    LinedUnbroken("\"");
    AnnounceBland("\"");
    var rest := "\" \"x\")";
    assert ShowAll(fields, true) + [')'] == Announce("\"") + rest;
    SkipBland(Announce("\""), rest, 1);
    assert rest[1..] == " \"x\")" && rest[1..][1..] == "\"x\")" && rest[1..][1..][1..] == "x\")";
    assert "x\")"[1..] == "\")" && "\")"[1..] == ")" && ")"[1..] == "";
    assert ScanFrom(")", 1, true) == -1;
    assert ScanFrom("\")", 1, false) == -1;
    assert ScanFrom("x\")", 1, false) == -1;
    assert ScanFrom("\"x\")", 1, true) == -1;
    assert ScanFrom(" \"x\")", 1, true) == -1;
    assert ScanFrom(rest, 1, false) == -1;
  }

  // ---------------------------------------------------------------- the message id

  /** The longest ending without white space. */
  function LastWord(s: string): string {
    if s == "" || IsSpace(s[|s| - 1]) then "" else LastWord(s[..|s| - 1]) + [s[|s| - 1]]
  }

  /** The last of the fields white space divides the text into, or nothing. */
  function LastField(s: string): string {
    if s != "" && IsSpace(s[|s| - 1]) then LastField(s[..|s| - 1]) else LastWord(s)
  }

  function TrimStart(s: string): string {
    if s != "" && s[0] == '"' then TrimStart(s[1..]) else s
  }

  function TrimEnd(s: string): string {
    if s != "" && s[|s| - 1] == '"' then TrimEnd(s[..|s| - 1]) else s
  }

  function TrimQuotes(s: string): string {
    TrimEnd(TrimStart(s))
  }

  const OPENING := "ENVELOPE ("

  /** Where a text first holds another; -1 if nowhere. */
  function IndexOf(s: string, what: string): (i: int)
    ensures -1 <= i <= |s| - |what| || i == -1
    ensures i >= 0 ==> s[i..i + |what|] == what
  {
    if |s| < |what| then -1
    else if s[..|what|] == what then 0
    else var i := IndexOf(s[1..], what); if i < 0 then -1 else i + 1
  }

  function IdFrom(rest: string): string {
    var end := ScanFrom(rest, 1, false);
    if end < 0 then "" else TrimQuotes(LastField(rest[..end]))
  }

  method MessageID(body: string) returns (id: string)
    ensures id == if IndexOf(body, OPENING) < 0 then "" else IdFrom(body[IndexOf(body, OPENING) + |OPENING|..])
  {
    var start := IndexOf(body, OPENING);
    if start < 0 {
      return "";
    }
    var rest := body[start + |OPENING|..];
    var end := FindEnd(rest);
    if end < 0 {
      return "";
    }
    id := TrimQuotes(LastField(rest[..end]));
  }

  predicate NoSpace(s: string) {
    forall c :: c in s ==> !IsSpace(c)
  }

  lemma {:induction false} LastWordHasNoSpace(s: string)
    ensures NoSpace(LastWord(s))
  {
    if s != "" {
      LastWordHasNoSpace(s[..|s| - 1]);
    }
  }

  lemma {:induction false} LastFieldHasNoSpace(s: string)
    ensures NoSpace(LastField(s))
  {
    if s != "" && IsSpace(s[|s| - 1]) {
      LastFieldHasNoSpace(s[..|s| - 1]);
    } else {
      LastWordHasNoSpace(s);
    }
  }

  lemma {:induction false} TrimmedFrom(s: string, c: char)
    ensures c in TrimStart(s) ==> c in s
    ensures c in TrimEnd(s) ==> c in s
  {
    if s != "" {
      TrimmedFrom(s[1..], c);
      TrimmedFrom(s[..|s| - 1], c);
    }
  }

  lemma {:induction false} LastWordAfterGap(pre: string, word: string)
    requires NoSpace(word) && (pre == "" || IsSpace(pre[|pre| - 1]))
    ensures LastWord(pre + word) == word
  {
    var s := pre + word;
    if word == "" {
      assert s == pre;
    } else {
      var front, last := word[..|word| - 1], word[|word| - 1];
      assert last in word && s[|s| - 1] == last && s[..|s| - 1] == pre + front;
      LastWordAfterGap(pre, front);
      assert word == front + [last];
    }
  }

  lemma WordAfterGap(pre: string, word: string)
    requires word != "" && NoSpace(word) && (pre == "" || IsSpace(pre[|pre| - 1]))
    ensures LastField(pre + word) == word
  {
    var s := pre + word;
    assert s[|s| - 1] == word[|word| - 1] && word[|word| - 1] in word;
    LastWordAfterGap(pre, word);
  }

  predicate ReadsBack(id: string) {
    NoSpace(id) && '"' !in id && '\\' !in id
  }

  lemma {:induction false} EscapeNothing(s: string)
    ensures |Escape(s)| >= |s|
    ensures '"' !in s && '\\' !in s <==> Escape(s) == s
    ensures '"' !in s && '\\' !in s <==> |Escape(s)| == |s|
  {
    if s != "" {
      EscapeNothing(s[1..]);
      assert s == [s[0]] + s[1..];
      if '"' !in s && '\\' !in s {
        assert Escape(s) == [s[0]] + Escape(s[1..]);
      }
    }
  }

  lemma {:induction false} EscapeKeepsSpaces(s: string)
    ensures NoSpace(Escape(s)) <==> NoSpace(s)
    ensures s != "" ==> Escape(s) != "" && Escape(s)[0] != '"' && Escape(s)[|Escape(s)| - 1] == s[|s| - 1]
  {
    if s != "" {
      EscapeKeepsSpaces(s[1..]);
      assert s == [s[0]] + s[1..];
    }
  }

  lemma {:induction false} TrimEndStops(s: string)
    ensures TrimEnd(s) == "" || TrimEnd(s)[|TrimEnd(s)| - 1] != '"'
  {
    if s != "" && s[|s| - 1] == '"' {
      TrimEndStops(s[..|s| - 1]);
    }
  }

  lemma TrimQuotedWord(id: string)
    ensures id == "" ==> TrimQuotes(['"'] + Escape(id) + ['"']) == ""
    ensures id != "" ==> TrimQuotes(['"'] + Escape(id) + ['"']) == TrimEnd(Escape(id))
  {
    var word := ['"'] + Escape(id) + ['"'];
    if id == "" {
      assert word[1..] == ['"'] && word[1..][1..] == "";
      assert TrimStart(word[1..]) == "";
    } else {
      EscapeKeepsSpaces(id);
      var body := Escape(id) + ['"'];
      assert word[1..] == body && body[0] != '"';
      assert TrimStart(word) == TrimStart(body) == body;
      assert body[..|body| - 1] == Escape(id);
    }
  }

  /** The quoted word gives back its text exactly when nothing in the text had to be escaped. */
  lemma QuotedWordIff(id: string)
    ensures TrimQuotes(['"'] + Escape(id) + ['"']) == id <==> ('"' !in id && '\\' !in id)
  {
    TrimQuotedWord(id);
    EscapeNothing(id);
    if id != "" {
      EscapeKeepsSpaces(id);
      TrimEndStops(Escape(id));
    }
  }

  /** The fields before the last, with the space that follows them. */
  function Before(fields: seq<Node>): string
    requires fields != []
  {
    if |fields| == 1 then "" else Show(fields[0]) + [' '] + Before(fields[1..])
  }

  lemma {:induction false} LastShown(fields: seq<Node>)
    requires fields != []
    ensures ShowAll(fields, true) == Before(fields) + Show(fields[|fields| - 1])
    ensures Before(fields) == "" || IsSpace(Before(fields)[|Before(fields)| - 1])
  {
    if |fields| == 1 {
      assert ShowAll(fields[1..], true) == "";
    } else {
      LastShown(fields[1..]);
      Regroup(Show(fields[0]) + [' '], Before(fields[1..]), Show(fields[|fields| - 1]));
    }
  }

  lemma IdOfRendered(fields: seq<Node>, tail: string)
    requires AllTame(fields, 1) && fields != []
    ensures IdFrom(ShowAll(fields, true) + [')'] + tail)
         == TrimQuotes(LastField(Before(fields) + Show(fields[|fields| - 1])))
  {
    ScanStopsAtOwnParen(fields, tail);
    LastShown(fields);
    var rest := ShowAll(fields, true) + [')'] + tail;
    assert rest[..|ShowAll(fields, true)|] == ShowAll(fields, true);
  }

  lemma BareWordReads(fields: seq<Node>, tail: string, w: string)
    requires AllTame(fields, 1) && fields != [] && Show(fields[|fields| - 1]) == w
    requires w != "" && NoSpace(w) && w[0] != '"' && w[|w| - 1] != '"'
    ensures IdFrom(ShowAll(fields, true) + [')'] + tail) == w
  {
    IdOfRendered(fields, tail);
    LastShown(fields);
    WordAfterGap(Before(fields), w);
  }

  /** An absent id reads as NIL, which is a value here. */
  lemma NilIdReadsNil(fields: seq<Node>, tail: string)
    requires AllTame(fields, 1) && fields != [] && fields[|fields| - 1] == Nil
    ensures IdFrom(ShowAll(fields, true) + [')'] + tail) == "NIL"
  {
    BareWordReads(fields, tail, "NIL");
  }

  lemma QuotedIdWithSpaces(fields: seq<Node>, tail: string, id: string)
    requires !NoSpace(id)
    requires AllTame(fields, 1) && fields != []
    ensures IdFrom(ShowAll(fields, true) + [')'] + tail) != id
  {
    IdOfRendered(fields, tail);
    var field := LastField(Before(fields) + Show(fields[|fields| - 1]));
    LastFieldHasNoSpace(Before(fields) + Show(fields[|fields| - 1]));
    var c :| c in id && IsSpace(c);
    TrimmedFrom(field, c);
    TrimmedFrom(TrimStart(field), c);
  }

  lemma QuotedWordIsLast(before: string, id: string)
    requires NoSpace(id) && (before == "" || IsSpace(before[|before| - 1]))
    ensures LastField(before + (['"'] + Escape(id) + ['"'])) == ['"'] + Escape(id) + ['"']
  {
    EscapeKeepsSpaces(id);
    var word := ['"'] + Escape(id) + ['"'];
    assert forall c :: c in word ==> c in Escape(id) || c == '"';
    WordAfterGap(before, word);
  }

  /** For every envelope, the id comes back if and only if it has no white space, quote or backslash. */
  lemma MessageIdReadsBackIff(fields: seq<Node>, tail: string, id: string)
    requires AllTame(fields, 1) && fields != [] && fields[|fields| - 1] == Quoted(id)
    ensures IdFrom(ShowAll(fields, true) + [')'] + tail) == id <==> ReadsBack(id)
  {
    if NoSpace(id) {
      IdOfRendered(fields, tail);
      LastShown(fields);
      QuotedWordIsLast(Before(fields), id);
      QuotedWordIff(id);
    } else {
      QuotedIdWithSpaces(fields, tail, id);
    }
  }

  lemma {:induction false} TrimsNothingIff(s: string)
    ensures |TrimStart(s)| <= |s| && |TrimEnd(s)| <= |s|
    ensures s != "" && s[0] == '"' ==> |TrimStart(s)| < |s|
    ensures TrimStart(s) == s <==> s == "" || s[0] != '"'
    ensures TrimEnd(s) == s <==> s == "" || s[|s| - 1] != '"'
  {
    if s != "" {
      TrimsNothingIff(s[1..]);
      TrimsNothingIff(s[..|s| - 1]);
    }
  }

  lemma QuotesKeptIff(s: string)
    ensures TrimQuotes(s) == s <==> s == "" || (s[0] != '"' && s[|s| - 1] != '"')
  {
    TrimsNothingIff(s);
    TrimsNothingIff(TrimStart(s));
  }

  /** The last field of a literal's rendering is its announced length when it holds nothing else. */
  lemma EmptyLiteralReads(fields: seq<Node>, tail: string)
    requires AllTame(fields, 1) && fields != [] && fields[|fields| - 1] == Literal("")
    ensures IdFrom(ShowAll(fields, true) + [')'] + tail) != ""
  {
    IdOfRendered(fields, tail);
    LastShown(fields);
    var pre, word := Before(fields), Braced("");
    DecimalReadsBack(0);
    assert pre + Show(Literal("")) == (pre + word) + [' '];
    assert (pre + word + [' '])[..|pre + word|] == pre + word;
    assert NoSpace(word);
    WordAfterGap(pre, word);
    QuotesKeptIff(word);
  }

  lemma LiteralWordReads(fields: seq<Node>, tail: string, id: string)
    requires AllTame(fields, 1) && fields != [] && fields[|fields| - 1] == Literal(id) && id != "" && NoSpace(id)
    ensures IdFrom(ShowAll(fields, true) + [')'] + tail) == TrimQuotes(id)
  {
    IdOfRendered(fields, tail);
    var pre := Before(fields) + Announce(id);
    LinedUnbroken(id);
    Regroup(Before(fields), Announce(id), id);
    assert pre[|pre| - 1] == ' ';
    WordAfterGap(pre, id);
  }

  /**
   * The same for an id sent as a literal: it comes back if and only if it is not empty and has no
   * white space and no quote at either end.
   */
  lemma LiteralIdReadsBackIff(fields: seq<Node>, tail: string, id: string)
    requires AllTame(fields, 1) && fields != [] && fields[|fields| - 1] == Literal(id)
    ensures IdFrom(ShowAll(fields, true) + [')'] + tail) == id
       <==> id != "" && NoSpace(id) && id[0] != '"' && id[|id| - 1] != '"'
  {
    if id == "" {
      EmptyLiteralReads(fields, tail);
    } else if NoSpace(id) {
      LiteralWordReads(fields, tail, id);
      QuotesKeptIff(id);
    } else {
      QuotedIdWithSpaces(fields, tail, id);
    }
  }

  // ---------------------------------------------------------------- from the wire

  /** No quoted string holds a line feed, which section 4.3 of RFC 3501 forbids it. */
  predicate Sendable(n: Node)
    decreases n, 0
  {
    match n
    case Quoted(s) => '\n' !in s
    case List(items, _) => AllSendable(items)
    case _ => true
  }

  predicate AllSendable(items: seq<Node>)
    decreases items, 1
  {
    items == [] || (Sendable(items[0]) && AllSendable(items[1..]))
  }

  lemma {:induction false} EscapeHasNoBreak(s: string)
    requires '\n' !in s
    ensures '\n' !in Escape(s)
  {
    if s != "" {
      assert s[0] in s;
      EscapeHasNoBreak(s[1..]);
    }
  }

  lemma LinedPlain(a: string, t: string)
    requires '\n' !in a && !BreakNext(t)
    ensures Lined(a + t) == a + Lined(t)
  {
    LinedConcat(a, t);
    LinedUnbroken(a);
  }

  lemma LinedLiteral(s: string, t: string)
    requires !BreakNext(t)
    ensures Lined(Braced(s) + ['\r', '\n'] + s + t) == Announce(s) + Lined(s) + Lined(t)
  {
    var line := Braced(s) + ['\r'];
    DecimalReadsBack(|s|);
    LinedLine(line, s + t);
    LinedConcat(s, t);
    assert line[..|line| - 1] == Braced(s);
    TrimmedPlain(Braced(s));
    assert Braced(s) + ['\r', '\n'] + s + t == line + ['\n'] + (s + t);
    Regroup(Announce(s), Lined(s), Lined(t));
  }

  lemma WireStartsPlain(n: Node, t: string)
    ensures !BreakNext(Wire(n) + t)
  {
    if n.List? { assert (Wire(n) + t)[0] == '('; }
    if n.Literal? { assert (Wire(n) + t)[0] == '{'; }
  }

  lemma {:induction false} WireAllStartsPlain(items: seq<Node>, spaced: bool, t: string)
    requires !BreakNext(t)
    ensures !BreakNext(WireAll(items, spaced) + t)
  {
    if items == [] {
      assert WireAll(items, spaced) + t == t;
    } else {
      var gap: string := if |items| > 1 && spaced then [' '] else [];
      Regroup(Wire(items[0]) + gap, WireAll(items[1..], spaced), t);
      Regroup(Wire(items[0]), gap, WireAll(items[1..], spaced) + t);
      WireStartsPlain(items[0], gap + (WireAll(items[1..], spaced) + t));
    }
  }

  /** What is sent is seen as shown, whatever else follows on the line. */
  lemma {:induction false} SeenAsShown(n: Node, t: string)
    requires Sendable(n) && !BreakNext(t)
    ensures Lined(Wire(n) + t) == Show(n) + Lined(t)
    decreases n, 0
  {
    match n
    case Nil => LinedPlain("NIL", t);
    case Quoted(s) =>
      EscapeHasNoBreak(s);
      LinedPlain(Wire(n), t);
    case Literal(s) => LinedLiteral(s, t);
    case List(items, spaced) => ListSeenAsShown(items, spaced, t);
  }

  lemma Enclosed(inner: string, t: string)
    ensures ['('] + inner + [')'] + t == ['('] + (inner + ([')'] + t))
  {
    Regroup(['('] + inner, [')'], t);
    Regroup(['('], inner, [')'] + t);
  }

  lemma {:induction false} ListSeenAsShown(items: seq<Node>, spaced: bool, t: string)
    requires AllSendable(items) && !BreakNext(t)
    ensures Lined(['('] + WireAll(items, spaced) + [')'] + t) == ['('] + ShowAll(items, spaced) + [')'] + Lined(t)
    decreases items, 2
  {
    var inner, rest := WireAll(items, spaced), [')'] + t;
    AllSeenAsShown(items, spaced, rest);
    WireAllStartsPlain(items, spaced, rest);
    LinedPlain(['('], inner + rest);
    LinedPlain([')'], t);
    Enclosed(inner, t);
    Enclosed(ShowAll(items, spaced), Lined(t));
  }

  lemma {:induction false} AllSeenAsShown(items: seq<Node>, spaced: bool, t: string)
    requires AllSendable(items) && !BreakNext(t)
    ensures Lined(WireAll(items, spaced) + t) == ShowAll(items, spaced) + Lined(t)
    decreases items, 1
  {
    if items == [] {
      assert WireAll(items, spaced) + t == t;
    } else {
      var gap: string := if |items| > 1 && spaced then [' '] else [];
      var rest, shown := WireAll(items[1..], spaced) + t, ShowAll(items[1..], spaced) + Lined(t);
      WireAllStartsPlain(items[1..], spaced, t);
      AllSeenAsShown(items[1..], spaced, t);
      LinedPlain(gap, rest);
      GapStartsPlain(gap, rest);
      SeenAsShown(items[0], gap + rest);
      Regroup(Wire(items[0]) + gap, WireAll(items[1..], spaced), t);
      Regroup(Wire(items[0]), gap, rest);
      Regroup(Show(items[0]) + gap, ShowAll(items[1..], spaced), Lined(t));
      Regroup(Show(items[0]), gap, shown);
    }
  }

  lemma GapStartsPlain(gap: string, rest: string)
    requires (gap == [' '] || gap == []) && !BreakNext(rest)
    ensures !BreakNext(gap + rest)
  {
    if gap == [] { assert gap + rest == rest; } else { assert (gap + rest)[0] == ' '; }
  }

  /** The id read from the joined lines of a response is the id read from its shown fields. */
  lemma IdFromWire(fields: seq<Node>, tail: string)
    requires AllSendable(fields) && fields != []
    ensures IdFrom(Lined(WireAll(fields, true) + [')'] + tail)) == IdFrom(ShowAll(fields, true) + [')'] + Lined(tail))
  {
    var rest := [')'] + tail;
    assert !BreakNext(rest);
    AllSeenAsShown(fields, true, rest);
    assert rest[1..] == tail;
    assert WireAll(fields, true) + [')'] + tail == WireAll(fields, true) + rest;
    Regroup(ShowAll(fields, true), [')'], Lined(tail));
  }

  lemma {:induction false} FoundAfter(pre: string, what: string, rest: string)
    requires IndexOf(pre + what, what) == |pre|
    ensures IndexOf(pre + what + rest, what) == |pre|
    decreases |pre|
  {
    var s := pre + what;
    assert (s + rest)[..|what|] == s[..|what|];
    if pre != "" {
      assert s[1..] == pre[1..] + what;
      FoundAfter(pre[1..], what, rest);
      assert (s + rest)[1..] == pre[1..] + what + rest;
    }
  }

  ghost predicate Occurs(s: string, what: string, i: int) {
    0 <= i && i + |what| <= |s| && s[i..i + |what|] == what
  }

  /** A search finds the first occurrence, or nothing if there is none. */
  lemma {:induction false} IndexOfIs(s: string, what: string)
    requires what != ""
    ensures var i := IndexOf(s, what);
            && (i >= 0 ==> Occurs(s, what, i) && forall j :: 0 <= j < i ==> !Occurs(s, what, j))
            && (i < 0 ==> forall j :: !Occurs(s, what, j))
  {
    if |s| >= |what| {
      assert s[0..|what|] == s[..|what|];
      if s[..|what|] != what {
        IndexOfIs(s[1..], what);
        forall j | j > 0
          ensures Occurs(s, what, j) <==> Occurs(s[1..], what, j - 1)
        {
          OccursNext(s, what, j);
        }
      }
    }
  }

  lemma OccursNext(s: string, what: string, j: int)
    requires s != "" && j > 0
    ensures Occurs(s, what, j) <==> Occurs(s[1..], what, j - 1)
  {
    if j + |what| <= |s| { assert s[j..j + |what|] == s[1..][j - 1..j - 1 + |what|]; }
  }

  /** Whatever comes before the first envelope of a response, the scan starts right behind its opening. */
  lemma RestOfResponse(pre: string, rest: string)
    requires IndexOf(pre + "ENVELOPE (", "ENVELOPE (") == |pre|
    ensures var body := pre + "ENVELOPE (" + rest; body[IndexOf(body, OPENING) + |OPENING|..] == rest
  {
    FoundAfter(pre, OPENING, rest);
  }
}
