/** The rows of the namespace-wide ACL index, and what they say about a key of a mailbox. */
module AclIndex {
  import opened Basics
  import opened Acl
  import opened AclEdits
  import opened Order

  datatype Row = Row(mailbox: string, entry: Entry)

  type Index = seq<Row>

  // ---------------------------------------------------------------- rows on disk

  /** The order rows are written in. */
  predicate RowLeq(a: Row, b: Row) {
    if a.mailbox != b.mailbox then StringLeq(a.mailbox, b.mailbox)
    else if Text(a.entry.id) != Text(b.entry.id) then StringLeq(Text(a.entry.id), Text(b.entry.id))
    else b.entry.negative || !a.entry.negative
  }

  /** By mailbox, then by identifier, the positive row of an identifier before the negative one. */
  ghost predicate WrittenFirst(a: Row, b: Row) {
    || ComesFirst(a.mailbox, b.mailbox)
    || (a.mailbox == b.mailbox && ComesFirst(Text(a.entry.id), Text(b.entry.id)))
    || (a.mailbox == b.mailbox && a.entry.id == b.entry.id && !a.entry.negative && b.entry.negative)
  }

  lemma WrittenFirstIsStrict(a: Row, b: Row)
    requires WrittenFirst(a, b)
    ensures !RowLeq(b, a)
  {
    if ComesFirst(a.mailbox, b.mailbox) {
      ComesFirstIsStrict(a.mailbox, b.mailbox);
      StringLeqIff(a.mailbox, a.mailbox);
    } else if ComesFirst(Text(a.entry.id), Text(b.entry.id)) {
      ComesFirstIsStrict(Text(a.entry.id), Text(b.entry.id));
      StringLeqIff(Text(a.entry.id), Text(a.entry.id));
    }
  }

  /** A line starting with the comment sign is skipped on the way back in. */
  predicate ShownName(mailbox: string) {
    mailbox == "" || mailbox[0] != '#'
  }

  predicate Shown(r: Row) { ShownName(r.mailbox) }

  /** The rows a reader is meant to find: in writing order, without the hidden ones. */
  function Stored(rows: Index): Index {
    Filter(Shown, SortBy(RowLeq, rows))
  }

  predicate For(mailbox: string, r: Row) { r.mailbox == mailbox }

  function RowsAt(rows: Index, mailbox: string): Index {
    Filter((r: Row) => For(mailbox, r), rows)
  }

  predicate Is(r: Row, mailbox: string, k: Key) {
    r.mailbox == mailbox && KeyOf(r.entry) == k
  }

  /** What the index says about a key of a mailbox: its last row counts. */
  function RightsAt(rows: Index, mailbox: string, k: Key): Option<string> {
    if rows == [] then None
    else if Is(rows[|rows| - 1], mailbox, k) then Some(rows[|rows| - 1].entry.rights)
    else RightsAt(rows[..|rows| - 1], mailbox, k)
  }

  lemma {:induction false} RightsConcat(a: Index, b: Index, mailbox: string, k: Key)
    ensures RightsAt(a + b, mailbox, k)
         == if RightsAt(b, mailbox, k).Some? then RightsAt(b, mailbox, k) else RightsAt(a, mailbox, k)
    decreases |b|
  {
    if b == [] {
      assert a + b == a;
    } else {
      assert (a + b)[..|a + b| - 1] == a + b[..|b| - 1];
      RightsConcat(a, b[..|b| - 1], mailbox, k);
    }
  }

  /** Only the rows of the key itself matter. */
  lemma {:induction false} RightsFiltered(rows: Index, keep: Row -> bool, mailbox: string, k: Key)
    ensures (forall r :: Is(r, mailbox, k) ==> keep(r)) ==>
              RightsAt(Filter(keep, rows), mailbox, k) == RightsAt(rows, mailbox, k)
    ensures (forall r :: Is(r, mailbox, k) ==> !keep(r)) ==> RightsAt(Filter(keep, rows), mailbox, k) == None
    decreases |rows|
  {
    if rows != [] {
      var front, last := rows[..|rows| - 1], rows[|rows| - 1];
      assert rows == front + [last];
      RightsFiltered(front, keep, mailbox, k);
      FilterConcat(keep, front, [last]);
      var f := Filter(keep, [last]);
      assert f == if keep(last) then [last] else [];
      RightsConcat(Filter(keep, front), f, mailbox, k);
      RightsOne(last, mailbox, k);
    }
  }

  lemma RightsOne(r: Row, mailbox: string, k: Key)
    ensures RightsAt([r], mailbox, k) == if Is(r, mailbox, k) then Some(r.entry.rights) else None
  {
    assert [r][..0] == [];
  }

  /** Sorting keeps the order among rows of one key, so the last one stays last. */
  lemma RightsSorted(rows: Index, mailbox: string, k: Key)
    ensures RightsAt(SortBy(RowLeq, rows), mailbox, k) == RightsAt(rows, mailbox, k)
  {
    var mine := (r: Row) => Is(r, mailbox, k);
    SortByStable(RowLeq, mine, rows);
    RightsFiltered(rows, mine, mailbox, k);
    RightsFiltered(SortBy(RowLeq, rows), mine, mailbox, k);
  }
}
