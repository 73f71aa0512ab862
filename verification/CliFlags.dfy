/**
 * Command-line flags anywhere on the line: registered flags and their values are moved to the
 * front, and a left-to-right flag parser then reads the result.
 */
module CliFlags {
  import opened Basics

  /** Registered flag names; the value says whether the flag is boolean. */
  type FlagSet = map<string, bool>

  /** Names as the tool registers them: not empty and, as registration demands, with no leading dash and no `=`. */
  predicate WellFormed(fs: FlagSet) {
    forall n :: n in fs ==> n != "" && n[0] != '-' && '=' !in n
  }

  // ---------------------------------------------------------------- one token

  function TrimDashes(s: string): string {
    if s != "" && s[0] == '-' then TrimDashes(s[1..]) else s
  }

  function BeforeEq(s: string): string {
    if s == "" || s[0] == '=' then "" else [s[0]] + BeforeEq(s[1..])
  }

  function AfterEq(s: string): string {
    if s == "" then "" else if s[0] == '=' then s[1..] else AfterEq(s[1..])
  }

  predicate Dashed(a: string) { |a| >= 2 && a[0] == '-' }

  /** The registered flag a token names, however many dashes it starts with. */
  function Registered(fs: FlagSet, a: string): Option<string> {
    if !Dashed(a) then None
    else
      var name := BeforeEq(TrimDashes(a));
      if TrimDashes(a) != "" && name in fs then Some(name) else None
  }

  datatype Kind = End | Positional | Alone | WithNext

  /** What a token is to the scan: a flag that is not boolean and has no `=` takes the next token with it. */
  function KindOf(fs: FlagSet, a: string): Kind {
    if a == "--" then End
    else
      var n := Registered(fs, a);
      if n.None? then Positional else if '=' in a || fs[n.value] then Alone else WithNext
  }

  // ---------------------------------------------------------------- the rearrangement

  datatype Scanned = Scanned(taken: seq<string>, left: seq<string>)

  /** How many tokens the first one takes with it; a terminator is never swallowed. */
  function Width(kind: string -> Kind, args: seq<string>): (n: nat)
    requires args != []
    ensures 1 <= n <= |args|
  {
    if kind(args[0]).WithNext? && |args| > 1 && !kind(args[1]).End? then 2 else 1
  }

  function Scan(kind: string -> Kind, args: seq<string>): Scanned
    decreases |args|
  {
    if args == [] then Scanned([], [])
    else if kind(args[0]).End? then Scanned([], args)
    else
      var n := Width(kind, args);
      var rest := Scan(kind, args[n..]);
      if kind(args[0]).Positional? then Scanned(rest.taken, args[..n] + rest.left)
      else Scanned(args[..n] + rest.taken, rest.left)
  }

  /** The scan of a list, given what was collected before it. */
  function Behind(flags: seq<string>, positionals: seq<string>, s: Scanned): Scanned {
    Scanned(flags + s.taken, positionals + s.left)
  }

  lemma ScanStep(kind: string -> Kind, args: seq<string>, flags: seq<string>, positionals: seq<string>, n: nat)
    requires args != [] && !kind(args[0]).End? && n == Width(kind, args)
    ensures kind(args[0]).Positional? ==>
              Behind(flags, positionals, Scan(kind, args))
                == Behind(flags, positionals + args[..n], Scan(kind, args[n..]))
    ensures !kind(args[0]).Positional? ==>
              Behind(flags, positionals, Scan(kind, args))
                == Behind(flags + args[..n], positionals, Scan(kind, args[n..]))
  {
    var rest := Scan(kind, args[n..]);
    assert positionals + (args[..n] + rest.left) == positionals + args[..n] + rest.left;
    assert flags + (args[..n] + rest.taken) == flags + args[..n] + rest.taken;
  }

  lemma BehindNothing(s: Scanned)
    ensures Behind([], [], s) == s && Behind(s.taken, s.left, Scanned([], [])) == s
  {
  }

  method Rearrange(kind: string -> Kind, args: seq<string>) returns (flags: seq<string>, positionals: seq<string>)
    ensures Scanned(flags, positionals) == Scan(kind, args)
  {
    flags, positionals := [], [];
    var i := 0;
    assert args[0..] == args;
    BehindNothing(Scan(kind, args));
    while i < |args|
      invariant 0 <= i <= |args|
      invariant Behind(flags, positionals, Scan(kind, args[i..])) == Scan(kind, args)
    {
      ghost var rest := args[i..];
      if kind(args[i]).End? {
        positionals := positionals + args[i..];
        assert flags + [] == flags;
        return;
      }
      ghost var before, from, n := flags, i, Width(kind, rest);
      ScanStep(kind, rest, flags, positionals, n);
      if !kind(args[i]).Positional? {
        flags := flags + [args[i]];
        if kind(args[i]).WithNext? && i + 1 < |args| && !kind(args[i + 1]).End? {
          i := i + 1;
          flags := flags + [args[i]];
        }
        assert flags == before + rest[..n];
      } else {
        positionals := positionals + [args[i]];
        assert rest[..n] == [args[i]];
      }
      i := i + 1;
      assert i == from + n && rest[n..] == args[i..];
    }
    BehindNothing(Scanned(flags, positionals));
  }

  /** Nothing is lost and nothing is made up. */
  lemma {:induction false} Permutes(kind: string -> Kind, args: seq<string>)
    ensures multiset(Scan(kind, args).taken) + multiset(Scan(kind, args).left) == multiset(args)
    decreases |args|
  {
    if args != [] && !kind(args[0]).End? {
      var n := Width(kind, args);
      Permutes(kind, args[n..]);
      assert args == args[..n] + args[n..];
    }
  }

  /** What was left behind holds no flag a second pass would take. */
  lemma {:induction false} NothingLeftToTake(kind: string -> Kind, args: seq<string>)
    ensures Scan(kind, Scan(kind, args).left) == Scanned([], Scan(kind, args).left)
    decreases |args|
  {
    if args != [] && !kind(args[0]).End? {
      var n := Width(kind, args);
      NothingLeftToTake(kind, args[n..]);
      if kind(args[0]).Positional? {
        var left := Scan(kind, args).left;
        assert left[0] == args[0] && left[1..] == Scan(kind, args[n..]).left;
      }
    }
  }

  // ---------------------------------------------------------------- the standard parser

  datatype Setting = Setting(name: string, value: string)

  /** What a token is to the standard library's parser. */
  datatype Token = Stop | Terminator | Bad | Sets(setting: Setting) | Needs(name: string)

  function Read(fs: FlagSet, a: string): Token {
    if !Dashed(a) then Stop
    else if a == "--" then Terminator
    else
      var body := if a[1] == '-' then a[2..] else a[1..];
      if body == "" || body[0] == '-' || body[0] == '=' || BeforeEq(body) !in fs then Bad
      else if '=' in body then Sets(Setting(BeforeEq(body), AfterEq(body)))
      else if fs[BeforeEq(body)] then Sets(Setting(BeforeEq(body), "true"))
      else Needs(BeforeEq(body))
  }

  datatype Outcome = Parsed(settings: seq<Setting>, rest: seq<string>) | Refused

  /** Set a flag, then go on with what follows. */
  function Then(accepts: Setting -> bool, s: Setting, after: Outcome): Outcome {
    if !accepts(s) || after.Refused? then Refused else Parsed([s] + after.settings, after.rest)
  }

  /** Left to right, stopping at the first token that is no flag; a flag may take any token for its value. */
  function Parse(read: string -> Token, accepts: Setting -> bool, args: seq<string>): Outcome
    decreases |args|
  {
    if args == [] then Parsed([], [])
    else
      match read(args[0])
      case Stop => Parsed([], args)
      case Terminator => Parsed([], args[1..])
      case Bad => Refused
      case Sets(s) => Then(accepts, s, Parse(read, accepts, args[1..]))
      case Needs(n) =>
        if |args| < 2 then Refused else Then(accepts, Setting(n, args[1]), Parse(read, accepts, args[2..]))
  }

  // ---------------------------------------------------------------- what the user means

  /** Flags wherever they stand before a terminator, every other token in its order. */
  function Ideal(kind: string -> Kind, read: string -> Token, accepts: Setting -> bool, args: seq<string>): Outcome
    decreases |args|
  {
    if args == [] then Parsed([], [])
    else if kind(args[0]).End? then Parsed([], args)
    else if kind(args[0]).Positional? then
      var after := Ideal(kind, read, accepts, args[1..]);
      if after.Refused? then Refused else Parsed(after.settings, [args[0]] + after.rest)
    else
      match read(args[0])
      case Sets(s) => Then(accepts, s, Ideal(kind, read, accepts, args[1..]))
      case Needs(n) =>
        if |args| < 2 || kind(args[1]).End? then Refused
        else Then(accepts, Setting(n, args[1]), Ideal(kind, read, accepts, args[2..]))
      case _ => Refused
  }

  /** A leading terminator goes; a leading token that looks like a flag but names none is refused. */
  function Finish(read: string -> Token, o: Outcome): Outcome {
    if o.Refused? || o.rest == [] then o
    else
      match read(o.rest[0])
      case Stop => o
      case Terminator => Parsed(o.settings, o.rest[1..])
      case _ => Refused
  }

  /** The last value flag stands where its value is missing: at the end, or right before the terminator. */
  predicate Deficient(kind: string -> Kind, args: seq<string>)
    decreases |args|
  {
    if args == [] || kind(args[0]).End? then false
    else if kind(args[0]).WithNext? && Width(kind, args) == 1 then true
    else Deficient(kind, args[Width(kind, args)..])
  }

  /** The scan and the parser see the same thing in a token. */
  ghost predicate Compatible(kind: string -> Kind, read: string -> Token) {
    forall a :: Fits(kind(a), read(a))
  }

  predicate Fits(k: Kind, t: Token) {
    match k
    case End => t.Terminator?
    case Positional => t.Stop? || t.Bad?
    case Alone => t.Sets? || t.Bad?
    case WithNext => t.Needs? || t.Bad?
  }

  // ---------------------------------------------------------------- the rearranged line parses as meant

  function Join(first: Outcome, then_: Outcome): Outcome {
    if first.Refused? || then_.Refused? then Refused
    else Parsed(first.settings + then_.settings, then_.rest)
  }

  lemma ThenJoin(accepts: Setting -> bool, s: Setting, first: Outcome, next: Outcome)
    ensures Then(accepts, s, Join(first, next)) == Join(Then(accepts, s, first), next)
  {
    if first.Parsed? && next.Parsed? {
      assert [s] + (first.settings + next.settings) == ([s] + first.settings) + next.settings;
    }
  }

  /** What the parser does with a flag in front, and its value if it needs one. */
  function Head(read: string -> Token, accepts: Setting -> bool, group: seq<string>, after: Outcome): Outcome
    requires group != []
  {
    match read(group[0])
    case Sets(s) => Then(accepts, s, after)
    case Needs(n) => if |group| < 2 then Refused else Then(accepts, Setting(n, group[1]), after)
    case _ => Refused
  }

  lemma HeadJoin(read: string -> Token, accepts: Setting -> bool, group: seq<string>, first: Outcome, next: Outcome)
    requires group != []
    ensures Head(read, accepts, group, Join(first, next)) == Join(Head(read, accepts, group, first), next)
  {
    match read(group[0])
    case Sets(s) => ThenJoin(accepts, s, first, next);
    case Needs(n) => if |group| >= 2 { ThenJoin(accepts, Setting(n, group[1]), first, next); }
    case _ =>
  }

  lemma ParseHead(read: string -> Token, accepts: Setting -> bool, group: seq<string>, rest: seq<string>)
    requires |group| == 1 || |group| == 2
    requires read(group[0]).Sets? || read(group[0]).Needs? || read(group[0]).Bad?
    requires |group| == if read(group[0]).Needs? then 2 else if read(group[0]).Sets? then 1 else |group|
    ensures Parse(read, accepts, group + rest) == Head(read, accepts, group, Parse(read, accepts, rest))
  {
    var line := group + rest;
    assert line[0] == group[0] && line[|group|..] == rest;
  }

  lemma IdealHead(kind: string -> Kind, read: string -> Token, accepts: Setting -> bool, args: seq<string>, n: nat)
    requires Compatible(kind, read) && args != [] && n == Width(kind, args)
    requires kind(args[0]).Alone? || (kind(args[0]).WithNext? && n == 2)
    ensures Ideal(kind, read, accepts, args) == Head(read, accepts, args[..n], Ideal(kind, read, accepts, args[n..]))
  {
    assert Fits(kind(args[0]), read(args[0]));
  }

  lemma {:induction false} TakenParses(kind: string -> Kind, read: string -> Token, accepts: Setting -> bool,
                                       args: seq<string>, tail: seq<string>)
    requires Compatible(kind, read) && !Deficient(kind, args)
    ensures Parse(read, accepts, Scan(kind, args).taken + tail)
         == Join(Ideal(kind, read, accepts, args), Parse(read, accepts, tail))
    decreases |args|
  {
    var end := Parse(read, accepts, tail);
    if args == [] || kind(args[0]).End? {
      assert [] + tail == tail;
      JoinNothing(end, args);
    } else {
      var n := Width(kind, args);
      TakenParses(kind, read, accepts, args[n..], tail);
      if !kind(args[0]).Positional? {
        Regroup(args[..n], Scan(kind, args[n..]).taken, tail);
        FlagParses(kind, read, accepts, args, n, Scan(kind, args[n..]).taken + tail, end);
      }
    }
  }

  lemma FlagParses(kind: string -> Kind, read: string -> Token, accepts: Setting -> bool,
                   args: seq<string>, n: nat, rest: seq<string>, end: Outcome)
    requires Compatible(kind, read) && args != [] && n == Width(kind, args)
    requires kind(args[0]).Alone? || (kind(args[0]).WithNext? && n == 2)
    requires Parse(read, accepts, rest) == Join(Ideal(kind, read, accepts, args[n..]), end)
    ensures Parse(read, accepts, args[..n] + rest) == Join(Ideal(kind, read, accepts, args), end)
  {
    assert Fits(kind(args[0]), read(args[0]));
    ParseHead(read, accepts, args[..n], rest);
    HeadJoin(read, accepts, args[..n], Ideal(kind, read, accepts, args[n..]), end);
    IdealHead(kind, read, accepts, args, n);
  }

  lemma JoinNothing(end: Outcome, rest: seq<string>)
    ensures Join(Parsed([], rest), end) == end
  {
    assert end.Parsed? ==> [] + end.settings == end.settings;
  }

  lemma {:induction false} IdealLeaves(kind: string -> Kind, read: string -> Token, accepts: Setting -> bool,
                                       args: seq<string>)
    requires Compatible(kind, read) && Ideal(kind, read, accepts, args).Parsed?
    ensures Ideal(kind, read, accepts, args).rest == Scan(kind, args).left
    decreases |args|
  {
    if args != [] && !kind(args[0]).End? {
      assert Fits(kind(args[0]), read(args[0]));
      IdealLeaves(kind, read, accepts, args[Width(kind, args)..]);
    }
  }

  lemma {:induction false} LeftStartsPlain(kind: string -> Kind, args: seq<string>)
    ensures var left := Scan(kind, args).left; left == [] || kind(left[0]).End? || kind(left[0]).Positional?
    decreases |args|
  {
    if args != [] && !kind(args[0]).End? {
      LeftStartsPlain(kind, args[Width(kind, args)..]);
    }
  }

  /** For every line with no value missing, parsing the rearranged line gives what the user means, refusals included. */
  lemma RearrangedMeansTheSame(kind: string -> Kind, read: string -> Token, accepts: Setting -> bool, args: seq<string>)
    requires Compatible(kind, read) && !Deficient(kind, args)
    ensures var s := Scan(kind, args);
            Parse(read, accepts, s.taken + s.left) == Finish(read, Ideal(kind, read, accepts, args))
  {
    var s, o := Scan(kind, args), Ideal(kind, read, accepts, args);
    TakenParses(kind, read, accepts, args, s.left);
    LeftStartsPlain(kind, args);
    assert s.left != [] ==> Fits(kind(s.left[0]), read(s.left[0]));
    if o.Parsed? {
      IdealLeaves(kind, read, accepts, args);
      assert o.settings + [] == o.settings;
    }
  }

  /** A line with its value-less flag taken out. */
  function Sufficient(kind: string -> Kind, args: seq<string>): seq<string>
    requires Deficient(kind, args)
    decreases |args|
  {
    var n := Width(kind, args);
    if kind(args[0]).WithNext? && n == 1 then args[1..]
    else args[..n] + Sufficient(kind, args[n..])
  }

  function Hungry(kind: string -> Kind, args: seq<string>): string
    requires Deficient(kind, args)
    decreases |args|
  {
    var n := Width(kind, args);
    if kind(args[0]).WithNext? && n == 1 then args[0] else Hungry(kind, args[n..])
  }

  lemma {:induction false} ScanWithout(kind: string -> Kind, args: seq<string>)
    requires Deficient(kind, args)
    ensures !Deficient(kind, Sufficient(kind, args)) && kind(Hungry(kind, args)).WithNext?
    ensures Scan(kind, args).taken == Scan(kind, Sufficient(kind, args)).taken + [Hungry(kind, args)]
    ensures Scan(kind, args).left == Scan(kind, Sufficient(kind, args)).left
    decreases |args|
  {
    var n := Width(kind, args);
    if kind(args[0]).WithNext? && n == 1 {
      assert |args| == 1 || kind(args[1]).End?;
      assert args[1..] == [] || args[1..][0] == args[1];
      assert Scan(kind, args[1..]).taken == [];
    } else {
      ScanWithout(kind, args[n..]);
      var rest := Sufficient(kind, args[n..]);
      var kept := args[..n] + rest;
      assert kept[0] == args[0] && kept[n..] == rest;
      assert n == 2 ==> kept[1] == args[1];
      assert Width(kind, kept) == n;
      assert args[..n] + (Scan(kind, rest).taken + [Hungry(kind, args)])
          == args[..n] + Scan(kind, rest).taken + [Hungry(kind, args)];
    }
  }

  /**
   * With a value missing, the flag that lacks it reads the first positional instead; what comes
   * before it is read as meant.
   */
  lemma MissingValueTakesPositional(kind: string -> Kind, read: string -> Token, accepts: Setting -> bool,
                                    args: seq<string>)
    requires Compatible(kind, read) && Deficient(kind, args)
    ensures Parse(read, accepts, Scan(kind, args).taken + Scan(kind, args).left)
         == Join(Ideal(kind, read, accepts, Sufficient(kind, args)),
                 Parse(read, accepts, [Hungry(kind, args)] + Scan(kind, args).left))
  {
    var left, rest, f := Scan(kind, args).left, Sufficient(kind, args), Hungry(kind, args);
    ScanWithout(kind, args);
    TakenParses(kind, read, accepts, rest, [f] + left);
    Regroup(Scan(kind, rest).taken, [f], left);
  }

  lemma {:induction false} MissingValueIsRefused(kind: string -> Kind, read: string -> Token,
                                                 accepts: Setting -> bool, args: seq<string>)
    requires Compatible(kind, read) && Deficient(kind, args)
    ensures Ideal(kind, read, accepts, args).Refused?
    decreases |args|
  {
    assert Fits(kind(args[0]), read(args[0]));
    if !(kind(args[0]).WithNext? && Width(kind, args) == 1) {
      MissingValueIsRefused(kind, read, accepts, args[Width(kind, args)..]);
    }
  }

  // ---------------------------------------------------------------- when a line is refused

  /** The flags of a line, each with the value it takes. */
  function Groups(kind: string -> Kind, args: seq<string>): seq<seq<string>>
    decreases |args|
  {
    if args == [] || kind(args[0]).End? then []
    else
      var n := Width(kind, args);
      (if kind(args[0]).Positional? then [] else [args[..n]]) + Groups(kind, args[n..])
  }

  /** The flags the parser reads off the front of a line, up to the first token it refuses. */
  function LeadingGroups(read: string -> Token, line: seq<string>): seq<seq<string>>
    decreases |line|
  {
    if line == [] then []
    else
      match read(line[0])
      case Stop => []
      case Terminator => []
      case Bad => [line[..1]]
      case Sets(_) => [line[..1]] + LeadingGroups(read, line[1..])
      case Needs(_) => if |line| < 2 then [line] else [line[..2]] + LeadingGroups(read, line[2..])
  }

  /** A flag nobody registered, one without its value, or a value its flag does not accept. */
  predicate BadGroup(read: string -> Token, accepts: Setting -> bool, group: seq<string>) {
    group == [] ||
    match read(group[0])
    case Sets(s) => !accepts(s)
    case Needs(n) => |group| < 2 || !accepts(Setting(n, group[1]))
    case _ => true
  }

  ghost predicate AnyBad(read: string -> Token, accepts: Setting -> bool, groups: seq<seq<string>>) {
    exists i :: 0 <= i < |groups| && BadGroup(read, accepts, groups[i])
  }

  lemma AnyBadFirst(read: string -> Token, accepts: Setting -> bool, group: seq<string>, rest: seq<seq<string>>)
    ensures AnyBad(read, accepts, [group] + rest) <==> BadGroup(read, accepts, group) || AnyBad(read, accepts, rest)
  {
    var all := [group] + rest;
    if i :| 0 <= i < |rest| && BadGroup(read, accepts, rest[i]) {
      assert all[i + 1] == rest[i];
    }
    if i :| 0 <= i < |all| && BadGroup(read, accepts, all[i]) {
      assert i > 0 ==> all[i] == rest[i - 1];
    }
    assert all[0] == group;
  }

  /** A reading is refused exactly for a bad flag in it. */
  lemma {:induction false} IdealRefusedIff(kind: string -> Kind, read: string -> Token, accepts: Setting -> bool,
                                           args: seq<string>)
    requires Compatible(kind, read)
    ensures Ideal(kind, read, accepts, args).Refused? <==> AnyBad(read, accepts, Groups(kind, args))
    decreases |args|
  {
    if args != [] && !kind(args[0]).End? {
      var n := Width(kind, args);
      assert Fits(kind(args[0]), read(args[0]));
      IdealRefusedIff(kind, read, accepts, args[n..]);
      if kind(args[0]).Positional? {
        assert [] + Groups(kind, args[n..]) == Groups(kind, args[n..]);
      } else {
        AnyBadFirst(read, accepts, args[..n], Groups(kind, args[n..]));
      }
    }
  }

  lemma {:induction false} ParseRefusedIff(read: string -> Token, accepts: Setting -> bool, line: seq<string>)
    ensures Parse(read, accepts, line).Refused? <==> AnyBad(read, accepts, LeadingGroups(read, line))
    decreases |line|
  {
    if line != [] {
      var n := if read(line[0]).Needs? && |line| >= 2 then 2 else 1;
      if read(line[0]).Sets? || n == 2 {
        ParseRefusedIff(read, accepts, line[n..]);
        AnyBadFirst(read, accepts, line[..n], LeadingGroups(read, line[n..]));
      } else if read(line[0]).Bad? || read(line[0]).Needs? {
        assert BadGroup(read, accepts, LeadingGroups(read, line)[0]);
      }
    }
  }

  /**
   * A flag of the line is bad, or one of those read once the flag without a value has taken the
   * first token left over for it.
   */
  ghost predicate BadAnyway(kind: string -> Kind, read: string -> Token, accepts: Setting -> bool, args: seq<string>)
    requires Deficient(kind, args)
  {
    || AnyBad(read, accepts, Groups(kind, Sufficient(kind, args)))
    || AnyBad(read, accepts, LeadingGroups(read, [Hungry(kind, args)] + Scan(kind, args).left))
  }

  /**
   * Exactly when the rearranged line means what the user wrote: no value is missing, or a flag it
   * reads is bad anyway.
   */
  lemma MeansTheSameIff(kind: string -> Kind, read: string -> Token, accepts: Setting -> bool, args: seq<string>)
    requires Compatible(kind, read)
    ensures Parse(read, accepts, Scan(kind, args).taken + Scan(kind, args).left)
         == Finish(read, Ideal(kind, read, accepts, args))
       <==> (!Deficient(kind, args) || BadAnyway(kind, read, accepts, args))
  {
    if Deficient(kind, args) {
      MissingValueIsRefused(kind, read, accepts, args);
      MissingValueTakesPositional(kind, read, accepts, args);
      IdealRefusedIff(kind, read, accepts, Sufficient(kind, args));
      ParseRefusedIff(read, accepts, [Hungry(kind, args)] + Scan(kind, args).left);
    } else {
      RearrangedMeansTheSame(kind, read, accepts, args);
    }
  }

  // ---------------------------------------------------------------- two flag sets on one line

  /** A line split three ways: the tool's own flags, the subcommand's, and the rest. */
  datatype Both = Both(globals: seq<string>, subs: seq<string>, left: seq<string>)

  /** The global flags are pulled out of the whole line first; the subcommand's are found in what is left. */
  function TwoPass(gk: string -> Kind, sk: string -> Kind, args: seq<string>): Both {
    var g := Scan(gk, args);
    var s := Scan(sk, g.left);
    Both(g.taken, s.taken, s.left)
  }

  /** One reading from left to right, every flag taking its value where it stands. */
  function OnePass(gk: string -> Kind, sk: string -> Kind, args: seq<string>): Both
    decreases |args|
  {
    if args == [] || gk(args[0]).End? then Both([], [], args)
    else if !gk(args[0]).Positional? then
      var n := Width(gk, args);
      var rest := OnePass(gk, sk, args[n..]);
      rest.(globals := args[..n] + rest.globals)
    else if !sk(args[0]).Positional? then
      var n := Width(sk, args);
      var rest := OnePass(gk, sk, args[n..]);
      rest.(subs := args[..n] + rest.subs)
    else
      var rest := OnePass(gk, sk, args[1..]);
      rest.(left := args[..1] + rest.left)
  }

  /** No name is registered twice, and both sets end at the same terminator. */
  ghost predicate Disjoint(gk: string -> Kind, sk: string -> Kind) {
    forall a :: (gk(a).End? <==> sk(a).End?) && (gk(a).Positional? || sk(a).Positional? || gk(a).End?)
  }

  /** No value of a subcommand flag names a global flag. */
  predicate ValuesPlain(gk: string -> Kind, sk: string -> Kind, args: seq<string>)
    decreases |args|
  {
    args == [] || gk(args[0]).End? ||
    (if !gk(args[0]).Positional? then ValuesPlain(gk, sk, args[Width(gk, args)..])
     else if !sk(args[0]).Positional? then
       (Width(sk, args) == 2 ==> gk(args[1]).Positional?) && ValuesPlain(gk, sk, args[Width(sk, args)..])
     else ValuesPlain(gk, sk, args[1..]))
  }

  lemma ScanPlain(kind: string -> Kind, a: string, rest: seq<string>)
    requires kind(a).Positional?
    ensures Scan(kind, [a] + rest) == Scanned(Scan(kind, rest).taken, [a] + Scan(kind, rest).left)
  {
    var line := [a] + rest;
    assert line[1..] == rest && line[..1] == [a];
  }

  lemma ScanFlag(kind: string -> Kind, group: seq<string>, rest: seq<string>)
    requires group != [] && !kind(group[0]).Positional? && !kind(group[0]).End?
    requires Width(kind, group + rest) == |group|
    ensures Scan(kind, group + rest) == Scanned(group + Scan(kind, rest).taken, Scan(kind, rest).left)
  {
    var line := group + rest;
    assert line[|group|..] == rest && line[..|group|] == group && line[0] == group[0];
  }

  /** A global flag, or a token neither set knows, is read alike by both. */
  lemma StepAlike(gk: string -> Kind, sk: string -> Kind, args: seq<string>, n: nat)
    requires Disjoint(gk, sk) && args != [] && !gk(args[0]).End?
    requires !gk(args[0]).Positional? || sk(args[0]).Positional?
    requires n == Width(gk, args)
    ensures TwoPass(gk, sk, args) == OnePass(gk, sk, args) <==> TwoPass(gk, sk, args[n..]) == OnePass(gk, sk, args[n..])
  {
    var left := Scan(gk, args[n..]).left;
    if gk(args[0]).Positional? {
      assert args[..n] == [args[0]];
      ScanPlain(sk, args[0], left);
      PrefixInjective(args[..1], Scan(sk, left).left, OnePass(gk, sk, args[1..]).left);
    } else {
      PrefixInjective(args[..n], Scan(gk, args[n..]).taken, OnePass(gk, sk, args[n..]).globals);
    }
  }

  lemma PrefixInjective<T>(p: seq<T>, a: seq<T>, b: seq<T>)
    ensures p + a == p + b <==> a == b
  {
    if p + a == p + b {
      assert (p + a)[|p|..] == a && (p + b)[|p|..] == b;
    }
  }

  /** The global scan passes over such a flag, and leaves it in front of what belongs to it. */
  lemma SubLeft(gk: string -> Kind, sk: string -> Kind, args: seq<string>, n: nat)
    requires Disjoint(gk, sk) && args != [] && !gk(args[0]).End? && !sk(args[0]).Positional? && n == Width(sk, args)
    requires n == 2 ==> gk(args[1]).Positional?
    ensures var rest := Scan(gk, args[n..]);
            Scan(gk, args) == Scanned(rest.taken, args[..n] + rest.left) && Width(sk, args[..n] + rest.left) == n
  {
    var left := Scan(gk, args[n..]).left;
    assert gk(args[0]).Positional?;
    assert args == [args[0]] + args[1..];
    ScanPlain(gk, args[0], args[1..]);
    if n == 2 {
      assert args[1..] == [args[1]] + args[2..];
      ScanPlain(gk, args[1], args[2..]);
      assert [args[0]] + ([args[1]] + left) == args[..2] + left;
    } else {
      assert args[..1] == [args[0]];
      SoleWidth(gk, sk, args, left);
    }
  }

  /** So is a subcommand flag with nothing behind it, or with a value that names no global flag. */
  lemma SubAlike(gk: string -> Kind, sk: string -> Kind, args: seq<string>, n: nat)
    requires Disjoint(gk, sk) && args != [] && !gk(args[0]).End? && !sk(args[0]).Positional? && n == Width(sk, args)
    requires n == 2 ==> gk(args[1]).Positional?
    ensures TwoPass(gk, sk, args) == OnePass(gk, sk, args) <==> TwoPass(gk, sk, args[n..]) == OnePass(gk, sk, args[n..])
  {
    var left := Scan(gk, args[n..]).left;
    SubLeft(gk, sk, args, n);
    ScanFlag(sk, args[..n], left);
    PrefixInjective(args[..n], Scan(sk, left).taken, OnePass(gk, sk, args[n..]).subs);
  }

  lemma SoleWidth(gk: string -> Kind, sk: string -> Kind, args: seq<string>, left: seq<string>)
    requires Disjoint(gk, sk) && args != [] && Width(sk, args) == 1 && left == Scan(gk, args[1..]).left
    ensures Width(sk, args[..1] + left) == 1
  {
    var line := args[..1] + left;
    assert line[0] == args[0];
    if sk(args[0]).WithNext? && |args| > 1 {
      assert args[1..][0] == args[1];
      assert left == args[1..] && line[1] == args[1];
    }
  }

  /** A subcommand flag whose value names a global flag loses it. */
  lemma StolenValue(gk: string -> Kind, sk: string -> Kind, args: seq<string>)
    requires Disjoint(gk, sk) && args != [] && !gk(args[0]).End? && !sk(args[0]).Positional? && Width(sk, args) == 2
    requires !gk(args[1]).Positional?
    ensures TwoPass(gk, sk, args).subs != OnePass(gk, sk, args).subs
  {
    assert gk(args[0]).Positional?;
    assert args == [args[0]] + args[1..];
    ScanPlain(gk, args[0], args[1..]);
    var left := Scan(gk, args[1..]).left;
    LeftStartsPlain(gk, args[1..]);
    var line := [args[0]] + left;
    assert Scan(gk, args).left == line;
    assert OnePass(gk, sk, args).subs[1] == args[1];
    var n := Width(sk, line);
    var subs := Scan(sk, line).taken;
    assert subs == line[..n] + Scan(sk, line[n..]).taken;
    if n == 2 {
      assert subs[1] == left[0];
    } else {
      assert line[1..] == left;
      assert Scan(sk, left).taken == [];
    }
  }

  /** The two readings of a line are one, if and only if no value of a subcommand flag names a global flag. */
  lemma {:induction false} TwoPassIsOnePassIff(gk: string -> Kind, sk: string -> Kind, args: seq<string>)
    requires Disjoint(gk, sk)
    ensures TwoPass(gk, sk, args) == OnePass(gk, sk, args) <==> ValuesPlain(gk, sk, args)
    decreases |args|
  {
    if args != [] && !gk(args[0]).End? {
      if !gk(args[0]).Positional? || sk(args[0]).Positional? {
        StepAlike(gk, sk, args, Width(gk, args));
        TwoPassIsOnePassIff(gk, sk, args[Width(gk, args)..]);
      } else if Width(sk, args) == 2 && !gk(args[1]).Positional? {
        StolenValue(gk, sk, args);
      } else {
        SubAlike(gk, sk, args, Width(sk, args));
        TwoPassIsOnePassIff(gk, sk, args[Width(sk, args)..]);
      }
    }
  }

  /** Two registries that share no name have disjoint readings. */
  lemma RegistriesDisjoint(globals: FlagSet, subs: FlagSet)
    requires globals.Keys !! subs.Keys
    ensures Disjoint(a => KindOf(globals, a), a => KindOf(subs, a))
  {
    forall a
      ensures KindOf(globals, a).Positional? || KindOf(subs, a).Positional? || KindOf(globals, a).End?
    {
      assert Registered(globals, a).Some? ==> Registered(globals, a).value in globals.Keys;
    }
  }

  // ---------------------------------------------------------------- the two readings of a token agree

  lemma {:induction false} TrimNothing(s: string)
    requires s == "" || s[0] != '-'
    ensures TrimDashes(s) == s
  {
  }

  lemma {:induction false} BeforeEqKeepsHead(s: string)
    ensures BeforeEq(s) != "" ==> s != "" && BeforeEq(s)[0] == s[0]
  {
  }

  lemma {:induction false} TrimmedHead(s: string)
    ensures TrimDashes(s) == "" || TrimDashes(s)[0] != '-'
    ensures '=' in TrimDashes(s) <==> '=' in s
  {
    if s != "" && s[0] == '-' {
      TrimmedHead(s[1..]);
      assert s == [s[0]] + s[1..];
    }
  }

  /** Up to two dashes, scan and parser take the same name and value from a token. */
  lemma SameBody(a: string)
    requires Dashed(a)
    ensures var body := if a[1] == '-' then a[2..] else a[1..];
            (body == "" || body[0] != '-') ==> TrimDashes(a) == body
    ensures var body := if a[1] == '-' then a[2..] else a[1..];
            body != "" && body[0] == '-' ==> TrimDashes(a) == TrimDashes(body)
  {
    assert a[1..][1..] == a[2..];
    var body := if a[1] == '-' then a[2..] else a[1..];
    assert TrimDashes(a) == TrimDashes(a[1..]);
    if body == "" || body[0] != '-' {
      TrimNothing(body);
    }
  }

  lemma TokenFits(fs: FlagSet, a: string)
    requires WellFormed(fs)
    ensures Fits(KindOf(fs, a), Read(fs, a))
  {
    if Dashed(a) && a != "--" {
      var body := if a[1] == '-' then a[2..] else a[1..];
      SameBody(a);
      TrimmedHead(a);
      BeforeEqKeepsHead(body);
      BeforeEqKeepsHead(TrimDashes(a));
    }
  }

  /** Registration rules out every clash, so the theorems above hold of every real flag set. */
  lemma AlwaysCompatible(fs: FlagSet)
    requires WellFormed(fs)
    ensures Compatible(a => KindOf(fs, a), a => Read(fs, a))
  {
    forall a ensures Fits(KindOf(fs, a), Read(fs, a)) { TokenFits(fs, a); }
  }

  lemma {:induction false} CutAtEq(n: string, v: string)
    requires '=' !in n
    ensures BeforeEq(n) == n && BeforeEq(n + ['='] + v) == n && AfterEq(n + ['='] + v) == v
  {
    var s := n + ['='] + v;
    if n == "" {
      assert s[1..] == v;
    } else {
      CutAtEq(n[1..], v);
      assert s[1..] == n[1..] + ['='] + v && n == [n[0]] + n[1..];
    }
  }

  lemma DashedName(dashes: string, body: string)
    requires dashes == "-" || dashes == "--"
    requires body != "" && body[0] != '-'
    ensures Dashed(dashes + body) && dashes + body != "--" && TrimDashes(dashes + body) == body
    ensures (if (dashes + body)[1] == '-' then (dashes + body)[2..] else (dashes + body)[1..]) == body
  {
    var a := dashes + body;
    assert a[|dashes|..] == body;
    assert TrimDashes(body) == body;
    if dashes == "--" { assert a[1..][1..] == body && a[1..][0] == '-'; }
  }

  /** A registered flag, with one dash or two: what scan and parser make of it alone and with a value attached. */
  lemma FlagTokens(fs: FlagSet, n: string, v: string, dashes: string)
    requires WellFormed(fs) && n in fs && (dashes == "-" || dashes == "--")
    ensures KindOf(fs, dashes + n) == if fs[n] then Alone else WithNext
    ensures Read(fs, dashes + n) == if fs[n] then Sets(Setting(n, "true")) else Needs(n)
    ensures KindOf(fs, dashes + (n + ['='] + v)) == Alone
    ensures Read(fs, dashes + (n + ['='] + v)) == Sets(Setting(n, v))
  {
    CutAtEq(n, v);
    DashedName(dashes, n);
    DashedName(dashes, n + ['='] + v);
    assert '=' in n + ['='] + v && '=' in dashes + (n + ['='] + v);
  }

  /** A token without a dash, a lone dash, and a name nobody registered are no flags. */
  lemma OtherTokens(fs: FlagSet, a: string, n: string, dashes: string)
    requires WellFormed(fs) && (a == "" || a == "-" || a[0] != '-')
    requires n != "" && n[0] != '-' && '=' !in n && n !in fs && (dashes == "-" || dashes == "--")
    ensures KindOf(fs, a) == Positional && Read(fs, a) == Stop
    ensures KindOf(fs, dashes + n) == Positional && Read(fs, dashes + n) == Bad
  {
    CutAtEq(n, "");
    DashedName(dashes, n);
  }

  lemma ScansBetween(kind: string -> Kind, p: string, flag: string, v: string, q: string, end: seq<string>)
    requires kind(p).Positional? && kind(flag).WithNext? && !kind(v).End? && kind(q).Positional?
    requires end != [] && kind(end[0]).End?
    ensures Scan(kind, [p, flag, v, q] + end) == Scanned([flag, v], [p, q] + end)
  {
    var line := [p, flag, v, q] + end;
    var line1, line3, line4 := line[1..], line[1..][2..], line[1..][2..][1..];
    assert line1[0] == flag && line1[1] == v && line1[..2] == [flag, v] && line3[0] == q && line4 == end;
    assert Scan(kind, line3) == Scanned([], [q] + end);
    assert Scan(kind, line1) == Scanned([flag, v] + [], [q] + end);
    assert line[..1] == [p] && [p] + ([q] + end) == [p, q] + end;
  }

  lemma ParsesBetween(read: string -> Token, flag: string, n: string, v: string, p: string, rest: seq<string>)
    requires read(flag) == Needs(n) && read(p) == Stop
    ensures Parse(read, (s: Setting) => true, [flag, v] + ([p] + rest)) == Parsed([Setting(n, v)], [p] + rest)
  {
    var line := [flag, v] + ([p] + rest);
    assert line[0] == flag && line[1] == v && line[2..] == [p] + rest;
    assert Parse(read, (s: Setting) => true, [p] + rest) == Parsed([], [p] + rest);
  }

  lemma ReadsBetween(kind: string -> Kind, read: string -> Token, flag: string, n: string, v: string,
                     p: string, q: string, end: seq<string>)
    requires kind(p).Positional? && kind(flag).WithNext? && !kind(v).End? && kind(q).Positional?
    requires end != [] && kind(end[0]).End? && read(flag) == Needs(n) && read(p) == Stop
    ensures var scanned := Scan(kind, [p, flag, v, q] + end);
            && scanned == Scanned([flag, v], [p, q] + end)
            && Parse(read, (s: Setting) => true, scanned.taken + scanned.left)
               == Parsed([Setting(n, v)], [p, q] + end)
  {
    ScansBetween(kind, p, flag, v, q, end);
    ParsesBetween(read, flag, n, v, p, [q] + end);
    assert [p, q] + end == [p] + ([q] + end);
  }

  /** A flag between two other arguments is read with its value, and the two are left; a terminator ends the flags. */
  lemma AnywhereOnTheLine(fs: FlagSet, n: string, v: string, p: string, q: string, end: seq<string>)
    requires WellFormed(fs) && n in fs && !fs[n] && p != "" && p[0] != '-' && q != "" && q[0] != '-' && v != "--"
    requires end != [] && end[0] == "--"
    ensures var kind, read := a => KindOf(fs, a), a => Read(fs, a);
            var scanned := Scan(kind, [p, "--" + n, v, q] + end);
            && scanned == Scanned(["--" + n, v], [p, q] + end)
            && Parse(read, (s: Setting) => true, scanned.taken + scanned.left)
               == Parsed([Setting(n, v)], [p, q] + end)
  {
    FlagTokens(fs, n, v, "--");
    ReadsBetween(a => KindOf(fs, a), a => Read(fs, a), "--" + n, n, v, p, q, end);
  }

  /** `u1 --ns`: the namespace flag at the end of the line swallows the user. */
  lemma TrailingFlagSwallowsUser()
    ensures var fs := map["ns" := false];
            var s := Scan(a => KindOf(fs, a), ["u1", "--ns"]);
            Parse(a => Read(fs, a), s => true, s.taken + s.left) == Parsed([Setting("ns", "u1")], [])
  {
    var fs := map["ns" := false];
    var kind, read := (a: string) => KindOf(fs, a), (a: string) => Read(fs, a);
    var args := ["u1", "--ns"];
    assert args[1..] == ["--ns"] && args[1..][1..] == [];
    assert KindOf(fs, "u1") == Positional;
    NsToken(fs);
    assert Scan(kind, args[1..]) == Scanned(["--ns"], []);
    assert Scan(kind, args) == Scanned(["--ns"], ["u1"]);
    var line := ["--ns"] + ["u1"];
    assert line[2..] == [] && line[0] == "--ns" && line[1] == "u1";
  }

  lemma NsToken(fs: FlagSet)
    requires fs == map["ns" := false]
    ensures KindOf(fs, "--ns") == WithNext && Read(fs, "--ns") == Needs("ns")
  {
    var a := "--ns";
    assert a[1..] == "-ns" && a[1..][1..] == "ns" && a[2..] == "ns";
    assert TrimDashes(a) == "ns";
    assert BeforeEq("ns") == "ns" by { assert "ns"[1..] == "s" && "s"[1..] == ""; }
  }
}
