/** Splitting text: `strings.Split` on one character, and the lines a scanner yields. */
module Text {

  function Split(s: string, sep: char): (parts: seq<string>)
    ensures parts != []
  {
    if s == [] then [""]
    else
      var rest := Split(s[1..], sep);
      if s[0] == sep then [""] + rest else [[s[0]] + rest[0]] + rest[1..]
  }

  lemma {:induction false} SplitWithout(s: string, sep: char)
    requires sep !in s
    ensures Split(s, sep) == [s]
  {
    if s != [] {
      SplitWithout(s[1..], sep);
      assert s == [s[0]] + s[1..];
    }
  }

  lemma {:induction false} SplitField(field: string, sep: char, rest: string)
    requires sep !in field
    ensures Split(field + [sep] + rest, sep) == [field] + Split(rest, sep)
  {
    var s := field + [sep] + rest;
    if field == [] {
      assert s[1..] == rest;
    } else {
      assert s[1..] == field[1..] + [sep] + rest;
      SplitField(field[1..], sep, rest);
      assert field == [field[0]] + field[1..];
    }
  }

  lemma JoinHead(c: char, a: seq<string>, b: seq<string>)
    requires a != []
    ensures [[c] + (a + b)[0]] + (a + b)[1..] == ([[c] + a[0]] + a[1..]) + b
  {
  }

  /** Text cut at a separator splits into the two halves' parts. */
  lemma {:induction false} SplitConcat(a: string, sep: char, b: string)
    ensures Split(a + [sep] + b, sep) == Split(a, sep) + Split(b, sep)
  {
    var s := a + [sep] + b;
    if a == [] {
      assert s[1..] == b;
    } else {
      assert s[1..] == a[1..] + [sep] + b;
      SplitConcat(a[1..], sep, b);
      JoinHead(a[0], Split(a[1..], sep), Split(b, sep));
    }
  }

  function Glue(x: seq<string>, y: seq<string>): seq<string>
    requires x != [] && y != []
  {
    x[..|x| - 1] + [x[|x| - 1] + y[0]] + y[1..]
  }

  lemma GlueNext(c: char, x: seq<string>, y: seq<string>)
    requires x != [] && y != []
    ensures [""] + Glue(x, y) == Glue([""] + x, y)
    ensures [[c] + Glue(x, y)[0]] + Glue(x, y)[1..] == Glue([[c] + x[0]] + x[1..], y)
  {
    if |x| == 1 {
      assert [c] + (x[0] + y[0]) == [c] + x[0] + y[0];
    }
  }

  /** Text cut anywhere: the parts either side of the cut are glued together. */
  lemma {:induction false} SplitGlue(a: string, sep: char, b: string)
    ensures Split(a + b, sep) == Glue(Split(a, sep), Split(b, sep))
  {
    if a == [] {
      assert a + b == b;
      assert "" + Split(b, sep)[0] == Split(b, sep)[0];
    } else {
      assert (a + b)[1..] == a[1..] + b;
      SplitGlue(a[1..], sep, b);
      GlueNext(a[0], Split(a[1..], sep), Split(b, sep));
    }
  }

  // ---------------------------------------------------------------- the lines a scanner yields

  /** The size of the reader's buffer, which a line and what ends it have to share. */
  const LIMIT := 1024 * 1024

  /** No line is as long as the buffer. */
  predicate Legible(text: string) {
    AllShort(Split(text, '\n'))
  }

  /** One line is legible up to 1048575 characters. */
  lemma LineLegibleIff(line: string)
    requires '\n' !in line
    ensures Legible(line) <==> |line| <= 1048575
  {
    SplitWithout(line, '\n');
    assert [line][0] == line;
  }

  predicate AllShort(lines: seq<string>) {
    forall i :: 0 <= i < |lines| ==> |lines[i]| < LIMIT
  }

  // ---------------------------------------------------------------- white space

  /** What `unicode.IsSpace` says. */
  predicate IsSpace(c: char) {
    || c == ' ' || ('\t' <= c <= '\r')
    || c as int in {0x85, 0xa0, 0x1680, 0x2028, 0x2029, 0x202f, 0x205f, 0x3000}
    || 0x2000 <= c as int <= 0x200a
  }

  /** The twenty-five characters that are white space. */
  lemma SpacesAre(c: char)
    ensures IsSpace(c)
       <==> c as int in {9, 10, 11, 12, 13, 32, 133, 160, 5760, 8192, 8193, 8194, 8195, 8196, 8197, 8198, 8199, 8200,
                         8201, 8202, 8232, 8233, 8239, 8287, 12288}
  {
  }
}
