/** How the smoke test's client turns the lines of an IMAP response into one text: app/smoketest/sieve.go. */
module ImapLines {
  import opened Basics
  import opened Text

  /** A line without the carriage returns that end it. */
  function Trimmed(line: string): string {
    if line != "" && line[|line| - 1] == '\r' then Trimmed(line[..|line| - 1]) else line
  }

  function Join(lines: seq<string>): string {
    if lines == [] then ""
    else if |lines| == 1 then Trimmed(lines[0])
    else Trimmed(lines[0]) + [' '] + Join(lines[1..])
  }

  /** The trimmed lines of a response, joined by one space. */
  function Joined(wire: string): string {
    Join(Split(wire, '\n'))
  }

  // ---------------------------------------------------------------- character by character

  /** A line break comes next: a line feed, behind any number of carriage returns. */
  predicate BreakNext(s: string) {
    s != "" && (s[0] == '\n' || (s[0] == '\r' && BreakNext(s[1..])))
  }

  /** Each line break is one space; all else is as sent. */
  function Lined(s: string): string {
    if s == "" then ""
    else if s[0] == '\n' then [' '] + Lined(s[1..])
    else if BreakNext(s) then Lined(s[1..])
    else [s[0]] + Lined(s[1..])
  }

  lemma {:induction false} LinedHasNoBreak(s: string)
    ensures '\n' !in Lined(s)
  {
    if s != "" { LinedHasNoBreak(s[1..]); }
  }

  lemma {:induction false} BreakInside(s: string)
    requires BreakNext(s)
    ensures '\n' in s
  {
    if s[0] != '\n' { BreakInside(s[1..]); }
  }

  lemma {:induction false} LinedUnbroken(s: string)
    ensures Lined(s) == s <==> '\n' !in s
  {
    if s != "" {
      LinedUnbroken(s[1..]);
      if BreakNext(s) { BreakInside(s); }
      assert s == [s[0]] + s[1..];
      LinedHasNoBreak(s);
    }
  }

  /** A text and what follows it are read apart, if what follows does not begin with a line break. */
  lemma {:induction false} LinedConcat(s: string, t: string)
    requires !BreakNext(t)
    ensures Lined(s + t) == Lined(s) + Lined(t)
  {
    if s == "" {
      assert s + t == t;
    } else {
      BreakConcat(s, t);
      assert (s + t)[1..] == s[1..] + t;
      LinedConcat(s[1..], t);
    }
  }

  lemma {:induction false} BreakConcat(s: string, t: string)
    requires s != "" && !BreakNext(t)
    ensures BreakNext(s + t) <==> BreakNext(s)
  {
    assert (s + t)[1..] == s[1..] + t;
    if |s| > 1 {
      BreakConcat(s[1..], t);
    } else {
      assert s[1..] + t == t;
    }
  }

  // ---------------------------------------------------------------- the two are one

  lemma JoinConcat(a: seq<string>, b: seq<string>)
    requires a != [] && b != []
    ensures Join(a + b) == Join(a) + [' '] + Join(b)
  {
    if |a| == 1 {
      assert (a + b)[1..] == b;
    } else {
      assert (a + b)[1..] == a[1..] + b;
      JoinConcat(a[1..], b);
      Regroup(Trimmed(a[0]) + [' '], Join(a[1..]), [' ']);
      Regroup(Trimmed(a[0]) + [' '], Join(a[1..]) + [' '], Join(b));
    }
  }

  /** One line, then the rest. */
  lemma JoinedLine(line: string, rest: string)
    requires '\n' !in line
    ensures Joined(line + ['\n'] + rest) == Trimmed(line) + [' '] + Joined(rest)
  {
    SplitField(line, '\n', rest);
    JoinConcat([line], Split(rest, '\n'));
  }

  lemma {:induction false} LinedLine(line: string, rest: string)
    requires '\n' !in line
    ensures Lined(line + ['\n'] + rest) == Trimmed(line) + [' '] + Lined(rest)
  {
    var all := line + ['\n'] + rest;
    if line == "" {
      assert all[1..] == rest;
    } else {
      assert all[1..] == line[1..] + ['\n'] + rest;
      LinedLine(line[1..], rest);
      BreakBeforeLine(line, rest);
      TrimmedTail(line);
    }
  }

  predicate OnlyReturns(s: string) {
    s == "" || (s[0] == '\r' && OnlyReturns(s[1..]))
  }

  lemma {:induction false} OnlyReturnsLast(s: string, c: char)
    ensures OnlyReturns(s + [c]) <==> OnlyReturns(s) && c == '\r'
  {
    if s != "" {
      assert (s + [c])[1..] == s[1..] + [c];
      OnlyReturnsLast(s[1..], c);
    }
  }

  lemma {:induction false} BreakBeforeLine(line: string, rest: string)
    requires '\n' !in line
    ensures BreakNext(line + ['\n'] + rest) <==> OnlyReturns(line)
  {
    var all := line + ['\n'] + rest;
    if line != "" {
      assert all[1..] == line[1..] + ['\n'] + rest && all[0] == line[0];
      BreakBeforeLine(line[1..], rest);
    }
  }

  lemma {:induction false} TrimmedTail(line: string)
    requires line != ""
    ensures Trimmed(line) == if OnlyReturns(line) then "" else [line[0]] + Trimmed(line[1..])
    ensures OnlyReturns(line) ==> Trimmed(line[1..]) == ""
  {
    var n := |line| - 1;
    var front, last := line[..n], line[n];
    assert line == front + [last];
    OnlyReturnsLast(front, last);
    if n == 0 {
      assert line[1..] == "" && front == "";
    } else {
      assert line[1..] == front[1..] + [last] && line[1..][..n - 1] == front[1..];
      if last == '\r' { TrimmedTail(front); }
    }
  }

  lemma {:induction false} TrimmedPlain(line: string)
    requires line == "" || line[|line| - 1] != '\r'
    ensures Trimmed(line) == line
  {
  }

  /**
   * Reading line by line and joining is reading character by character, of a response that ends in no
   * carriage return.
   */
  lemma {:induction false} JoinedIsLined(wire: string)
    requires wire == "" || wire[|wire| - 1] != '\r'
    ensures Joined(wire) == Lined(wire)
    decreases |wire|
  {
    if '\n' in wire {
      var line, rest := CutAtBreak(wire);
      if rest != "" { assert rest[|rest| - 1] == wire[|wire| - 1]; }
      JoinedIsLined(rest);
      JoinedLine(line, rest);
      LinedLine(line, rest);
    } else {
      SplitWithout(wire, '\n');
      TrimmedPlain(wire);
      LinedUnbroken(wire);
    }
  }

  lemma {:induction false} CutAtBreak(s: string) returns (line: string, rest: string)
    requires '\n' in s
    ensures '\n' !in line && s == line + ['\n'] + rest
    decreases s
  {
    if s[0] == '\n' {
      line, rest := "", s[1..];
    } else {
      line, rest := CutAtBreak(s[1..]);
      line := [s[0]] + line;
    }
  }

  // ---------------------------------------------------------------- the command

  predicate IsTagged(tag: string, line: string) {
    HasPrefix(line, tag + " ")
  }

  /** The lines before the one that answers the command. */
  function Untagged(tag: string, lines: seq<string>): seq<string> {
    if lines == [] || IsTagged(tag, Trimmed(lines[0])) then [] else [lines[0]] + Untagged(tag, lines[1..])
  }

  /** A tag and a space make the answer, whatever follows; a line that starts otherwise is none. */
  lemma TaggedIs(tag: string, rest: string, line: string)
    ensures IsTagged(tag, tag + " " + rest)
    ensures tag != "" && (line == "" || line[0] != tag[0]) ==> !IsTagged(tag, line)
  {
    var answer := tag + " " + rest;
    assert answer[..|tag| + 1] == tag + " ";
    if tag != "" && IsTagged(tag, line) { assert line[..|tag| + 1][0] == tag[0]; }
  }

  /** What a command comes to: its response, a refusal with what came before it, or a connection that broke off. */
  datatype Reply = Fine(before: seq<string>) | Refused(before: seq<string>, answer: string) | BrokenOff

  /** This is the first line that answers the command. */
  predicate AnsweredAt(tag: string, lines: seq<string>, i: int) {
    && 0 <= i < |lines| && IsTagged(tag, Trimmed(lines[i]))
    && forall j :: 0 <= j < i ==> !IsTagged(tag, Trimmed(lines[j]))
  }

  lemma {:induction false} UntaggedIs(tag: string, lines: seq<string>, i: nat)
    requires AnsweredAt(tag, lines, i)
    ensures Untagged(tag, lines) == lines[..i]
  {
    if i > 0 {
      assert forall j :: 0 <= j < i - 1 ==> lines[1..][j] == lines[j + 1];
      UntaggedIs(tag, lines[1..], i - 1);
      assert lines[..i] == [lines[0]] + lines[1..][..i - 1];
    }
  }

  /** The loop of `cmd`. */
  method ReadReply(tag: string, lines: seq<string>) returns (r: Reply)
    ensures r.BrokenOff? <==> forall i :: 0 <= i < |lines| ==> !IsTagged(tag, Trimmed(lines[i]))
    ensures forall i :: AnsweredAt(tag, lines, i) ==>
              r == if HasPrefix(Trimmed(lines[i]), tag + " OK") then Fine(lines[..i])
                   else Refused(lines[..i], Trimmed(lines[i]))
    ensures !r.BrokenOff? ==> r.before == Untagged(tag, lines)
  {
    for i := 0 to |lines|
      invariant forall j :: 0 <= j < i ==> !IsTagged(tag, Trimmed(lines[j]))
    {
      var line := Trimmed(lines[i]);
      if HasPrefix(line, tag + " OK") {
        assert line[..|tag| + 1] == (tag + " OK")[..|tag| + 1] == tag + " ";
        UntaggedIs(tag, lines, i);
        return Fine(lines[..i]);
      }
      if IsTagged(tag, line) {
        UntaggedIs(tag, lines, i);
        return Refused(lines[..i], line);
      }
    }
    r := BrokenOff;
  }

  /** The whole response is read, if and only if none of its lines passes for the answer to the command. */
  lemma {:induction false} ReplyIsWholeIff(tag: string, lines: seq<string>, answer: string)
    requires IsTagged(tag, Trimmed(answer))
    ensures Untagged(tag, lines + [answer]) == lines
       <==> forall i :: 0 <= i < |lines| ==> !IsTagged(tag, Trimmed(lines[i]))
  {
    if lines == [] {
      assert lines + [answer] == [answer];
    } else {
      assert (lines + [answer])[1..] == lines[1..] + [answer];
      ReplyIsWholeIff(tag, lines[1..], answer);
      assert lines == [lines[0]] + lines[1..];
      assert forall i :: 0 <= i < |lines[1..]| ==> lines[1..][i] == lines[i + 1];
    }
  }
}
