/** The comment census guard: a baseline of block shares, checked and rewritten round after round. */
module CommentRatchet {
  datatype Package = Package(name: string, goLines: nat, blockLines: nat)

  type Census = seq<Package>

  type Baseline = map<string, real>

  const TOLERANCE := 0.000000001

  const THOUSANDTH := 0.001

  predicate DistinctNames(census: Census) {
    forall i, j :: 0 <= i < j < |census| ==> census[i].name != census[j].name
  }

  function BlockShare(c: Package): real {
    if c.goLines == 0 then 0.0 else c.blockLines as real / c.goLines as real
  }

  /** No more than this share of the package's lines sits in blocks. */
  predicate AtMost(c: Package, share: real) {
    c.goLines == 0 || c.blockLines as real <= share * c.goLines as real
  }

  lemma ShareAgainst(c: Package, share: real)
    ensures c.goLines == 0 || BlockShare(c) <= share <==> AtMost(c, share)
  {
    if c.goLines > 0 {
      var n, b := c.goLines as real, c.blockLines as real;
      Divided(b, n, share);
    }
  }

  lemma Divided(b: real, n: real, share: real)
    requires n > 0.0
    ensures b / n <= share <==> b <= share * n
    ensures b / n < share <==> b < share * n
  {
    var q := b / n;
    assert q * n == b;
    if q <= share { assert q * n <= share * n; }
    if q > share { assert q * n > share * n; }
    if q < share { assert q * n < share * n; }
  }

  function RoundUp(r: real): real {
    ((r * 1000.0).Floor + 1) as real / 1000.0
  }

  /** The limit a package is held to: its entry, or the threshold once it has none. */
  function Limit(baseline: Baseline, name: string, max: real): real {
    if name in baseline then baseline[name] else max
  }

  predicate Within(baseline: Baseline, c: Package, max: real) {
    c.goLines == 0 || BlockShare(c) <= Limit(baseline, c.name, max) + TOLERANCE
  }

  lemma WithinIff(baseline: Baseline, c: Package, max: real)
    ensures Within(baseline, c, max)
       <==> AtMost(c, (if c.name in baseline then baseline[c.name] else max) + 0.000000001)
  {
    ShareAgainst(c, Limit(baseline, c.name, max) + TOLERANCE);
  }

  method Check(baseline: Baseline, census: Census, max: real) returns (ok: bool)
    ensures ok <==> forall c :: c in census ==> Within(baseline, c, max)
    ensures ok <==> forall c :: c in census ==> AtMost(c, Limit(baseline, c.name, max) + TOLERANCE)
  {
    ok := true;
    for i := 0 to |census|
      invariant ok <==> forall j :: 0 <= j < i ==> Within(baseline, census[j], max)
    {
      var c := census[i];
      if c.goLines != 0 && BlockShare(c) > Limit(baseline, c.name, max) + TOLERANCE {
        ok := false;
      }
    }
    forall c | c in census ensures Within(baseline, c, max) <==> AtMost(c, Limit(baseline, c.name, max) + TOLERANCE) {
      WithinIff(baseline, c, max);
    }
  }

  predicate Over(c: Package, max: real) {
    c.goLines > 0 && BlockShare(c) > max
  }

  /** The new baseline: every package still over the threshold, rounded up; the rest left out. */
  function Written(census: Census, max: real): Baseline {
    if census == [] then map[]
    else
      var front, c := Written(census[..|census| - 1], max), census[|census| - 1];
      if Over(c, max) then front[c.name := RoundUp(BlockShare(c))] else front
  }

  method WriteBaseline(census: Census, max: real) returns (baseline: Baseline)
    ensures baseline == Written(census, max)
  {
    baseline := map[];
    for i := 0 to |census|
      invariant baseline == Written(census[..i], max)
    {
      assert census[..i + 1][..i] == census[..i];
      if Over(census[i], max) {
        baseline := baseline[census[i].name := RoundUp(BlockShare(census[i]))];
      }
    }
    assert census[..|census|] == census;
  }

  lemma {:induction false} WrittenAt(census: Census, max: real, c: Package)
    requires DistinctNames(census) && c in census
    ensures c.name in Written(census, max) <==> Over(c, max)
    ensures Over(c, max) ==> Written(census, max)[c.name] == RoundUp(BlockShare(c))
  {
    var front, last := census[..|census| - 1], census[|census| - 1];
    if c == last {
      WrittenElsewhere(front, max, c.name);
    } else {
      var i :| 0 <= i < |census| && census[i] == c;
      assert front[i] == c;
      WrittenAt(front, max, c);
    }
  }

  lemma {:induction false} WrittenElsewhere(census: Census, max: real, name: string)
    requires forall i :: 0 <= i < |census| ==> census[i].name != name
    ensures name !in Written(census, max)
  {
    if census != [] {
      WrittenElsewhere(census[..|census| - 1], max, name);
    }
  }

  lemma {:induction false} WrittenFrom(census: Census, max: real, name: string) returns (c: Package)
    requires name in Written(census, max)
    ensures c in census && c.name == name && Over(c, max) && Written(census, max)[name] == RoundUp(BlockShare(c))
  {
    var last := census[|census| - 1];
    if last.name == name && Over(last, max) {
      c := last;
    } else {
      c := WrittenFrom(census[..|census| - 1], max, name);
    }
  }

  /**
   * What a written baseline says of a package: it has an entry exactly if more than the threshold of
   * its lines sits in blocks, and the entry is the next whole thousandth above that share.
   */
  lemma EntryIs(census: Census, max: real, c: Package)
    requires DistinctNames(census) && c in census
    ensures c.name in Written(census, max) <==> !AtMost(c, max)
    ensures c.name in Written(census, max) ==>
              var entry := Written(census, max)[c.name];
              && Grid(entry) == entry
              && (entry - THOUSANDTH) * c.goLines as real <= c.blockLines as real < entry * c.goLines as real
  {
    WrittenAt(census, max, c);
    ShareAgainst(c, max);
    if Over(c, max) {
      var share := BlockShare(c);
      RoundUpBounds(share);
      RoundUpWhole(share);
      Divided(c.blockLines as real, c.goLines as real, RoundUp(share));
      Divided(c.blockLines as real, c.goLines as real, RoundUp(share) - THOUSANDTH);
    }
  }

  lemma RoundUpWhole(r: real)
    ensures Grid(RoundUp(r)) == RoundUp(r)
  {
    var k := (r * 1000.0).Floor + 1;
    assert RoundUp(r) * 1000.0 == k as real;
  }

  /** The last whole thousandth at or below a share. */
  function Grid(r: real): real {
    (r * 1000.0).Floor as real / 1000.0
  }

  lemma RoundUpBounds(r: real)
    ensures r < RoundUp(r) <= r + THOUSANDTH
  {
    var f := (r * 1000.0).Floor;
    assert f as real <= r * 1000.0 < f as real + 1.0;
  }

  /** Writing the baseline and checking the same census always passes. */
  lemma WriteThenCheckPasses(census: Census, max: real, c: Package)
    requires DistinctNames(census) && c in census
    ensures Within(Written(census, max), c, max)
  {
    WrittenAt(census, max, c);
    RoundUpBounds(BlockShare(c));
  }

  // ---------------------------------------------------------------- one round

  ghost predicate Passes(baseline: Baseline, census: Census, max: real) {
    DistinctNames(census) && forall c :: c in census ==> Within(baseline, c, max)
  }

  lemma FloorAgainst(x: real, e: real)
    ensures (x.Floor + 1) as real > e <==> x >= e.Floor as real
  {
    if x >= e.Floor as real {
      assert x.Floor >= e.Floor;
    } else {
      assert x.Floor + 1 <= e.Floor;
    }
  }

  /** A share rounds up past an entry exactly from the entry's last whole thousandth on. */
  lemma RoundUpPastIff(share: real, entry: real)
    ensures RoundUp(share) > entry <==> share >= Grid(entry)
  {
    FloorAgainst(share * 1000.0, entry * 1000.0);
  }

  lemma RoundUpNear(share: real, entry: real)
    requires entry <= share <= entry + TOLERANCE && Grid(entry) == entry
    ensures RoundUp(share) == entry + THOUSANDTH
  {
    var k := (entry * 1000.0).Floor;
    assert entry * 1000.0 == k as real;
    assert k as real <= share * 1000.0 < k as real + 1.0;
    assert (share * 1000.0).Floor == k;
  }

  /**
   * After a passing check the next write admits no package that was not there, except within the
   * tolerance of the threshold. An entry already there, written by the tool or by hand, rises exactly
   * when its package stands at its last whole thousandth or above, by no more than a thousandth and
   * the tolerance, and by just a thousandth if it is a whole number of them.
   */
  lemma NextWrite(baseline: Baseline, census: Census, max: real, c: Package)
    requires Passes(baseline, census, max) && c in census
    requires c.name in Written(census, max)
    ensures c.name !in baseline ==> max < BlockShare(c) <= max + TOLERANCE
    ensures c.name in baseline ==>
              var entry, next, share := baseline[c.name], Written(census, max)[c.name], BlockShare(c);
              && (next > entry <==> share >= Grid(entry))
              && next <= entry + THOUSANDTH + TOLERANCE
              && (share >= entry == Grid(entry) ==> next == entry + THOUSANDTH)
  {
    WrittenAt(census, max, c);
    assert Within(baseline, c, max);
    RoundUpBounds(BlockShare(c));
    if c.name in baseline {
      var entry, share := baseline[c.name], BlockShare(c);
      RoundUpPastIff(share, entry);
      if share >= entry == Grid(entry) { RoundUpNear(share, entry); }
    }
  }

  // ---------------------------------------------------------------- many rounds

  /** No entry is stricter than the threshold. */
  ghost predicate NoneUnder(baseline: Baseline, max: real) {
    forall n :: n in baseline ==> baseline[n] >= max
  }

  /** Baselines and the censuses that were checked against each and then written. */
  ghost predicate Rounds(baselines: seq<Baseline>, censuses: seq<Census>, max: real) {
    && |baselines| == |censuses| + 1
    && forall i :: 0 <= i < |censuses| ==>
         Passes(baselines[i], censuses[i], max) && baselines[i + 1] == Written(censuses[i], max)
  }

  lemma WrittenNoneUnder(census: Census, max: real)
    ensures NoneUnder(Written(census, max), max)
  {
    forall n | n in Written(census, max)
      ensures Written(census, max)[n] >= max
    {
      var c := WrittenFrom(census, max, n);
      RoundUpBounds(BlockShare(c));
    }
  }

  lemma RoundRaisesLittle(baseline: Baseline, census: Census, max: real, name: string)
    requires NoneUnder(baseline, max) && Passes(baseline, census, max)
    ensures Limit(Written(census, max), name, max) <= Limit(baseline, name, max) + THOUSANDTH + TOLERANCE
  {
    if name in Written(census, max) {
      var c := WrittenFrom(census, max, name);
      NextWrite(baseline, census, max, c);
      WrittenAt(census, max, c);
      RoundUpBounds(BlockShare(c));
    }
  }

  /** Over any number of rounds no limit rises by more than that many thousandths and tolerances. */
  lemma {:induction false} RatchetBound(baselines: seq<Baseline>, censuses: seq<Census>, max: real, name: string)
    requires Rounds(baselines, censuses, max) && NoneUnder(baselines[0], max)
    ensures var n := |censuses|;
            && NoneUnder(baselines[n], max)
            && Limit(baselines[n], name, max) <= Limit(baselines[0], name, max) + n as real * (THOUSANDTH + TOLERANCE)
    decreases |censuses|
  {
    var n := |censuses|;
    if n > 0 {
      RatchetBound(baselines[..n], censuses[..n - 1], max, name);
      RoundRaisesLittle(baselines[n - 1], censuses[n - 1], max, name);
      WrittenNoneUnder(censuses[n - 1], max);
    }
  }

  /**
   * An entry set by hand under the threshold is forgotten by the next write, and its package held to
   * the threshold again.
   */
  lemma StricterEntryForgotten(baseline: Baseline, census: Census, max: real, c: Package)
    requires Passes(baseline, census, max) && c in census && c.name in baseline && baseline[c.name] + TOLERANCE <= max
    ensures Limit(Written(census, max), c.name, max) == max
  {
    WrittenAt(census, max, c);
    assert Within(baseline, c, max);
  }

  /** A package of a thousand lines standing exactly at its entry. */
  function Standing(k: nat): Package { Package("p", 1000, k) }

  function EntryAt(k: nat): Baseline { map["p" := k as real / 1000.0] }

  lemma StandingWritten(k: nat, max: real)
    requires max < k as real / 1000.0
    ensures Passes(EntryAt(k), [Standing(k)], max)
    ensures Written([Standing(k)], max) == EntryAt(k + 1)
  {
    var census := [Standing(k)];
    assert census[..0] == [];
    var share := BlockShare(Standing(k));
    assert share == k as real / 1000.0;
    assert share * 1000.0 == k as real;
    assert (share * 1000.0).Floor == k;
  }

  /** The number does not only go down: a package that keeps to its entry climbs a thousandth every round. */
  lemma {:induction false} RatchetClimbs(k: nat, n: nat, max: real)
    returns (baselines: seq<Baseline>, censuses: seq<Census>)
    requires max < k as real / 1000.0
    ensures |censuses| == n && Rounds(baselines, censuses, max)
    ensures baselines[0] == EntryAt(k) && baselines[n] == EntryAt(k + n)
  {
    if n == 0 {
      StandingWritten(k, max);
      baselines, censuses := [EntryAt(k)], [];
    } else {
      baselines, censuses := RatchetClimbs(k, n - 1, max);
      StandingWritten(k + n - 1, max);
      censuses := censuses + [[Standing(k + n - 1)]];
      baselines := baselines + [EntryAt(k + n)];
    }
  }
}
