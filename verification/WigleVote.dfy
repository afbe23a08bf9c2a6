/**
 Is an address random or public?  Each table that records the address type votes: the single lookup takes one row
 per table, whichever LIMIT 1 returns, the bulk lookup every row.  Ties and unknown addresses count as random (1).
 */
module WigleVote {
  import opened Collections
  import opened Wrappers

  /** A row of a table with a `bdaddr_random` column; other values than 0 and 1 do not vote. */
  datatype Row = Row(bdaddr: string, random: int)

  type Table = seq<Row>

  /** The two counters of an address. */
  datatype Tally = Tally(zeros: nat, ones: nat)

  function Majority(t: Tally): int {
    if t.zeros == t.ones then 1 else if t.zeros > t.ones then 0 else 1
  }

  function Vote(t: Tally, random: int): Tally {
    if random == 0 then t.(zeros := t.zeros + 1) else if random == 1 then t.(ones := t.ones + 1) else t
  }

  /** All votes for an address in a list of rows. */
  function Votes(rows: seq<Row>, b: string): Tally {
    if rows == [] then Tally(0, 0)
    else
      var t, row := Votes(rows[..|rows| - 1], b), rows[|rows| - 1];
      if row.bdaddr == b then Vote(t, row.random) else t
  }

  function Concat(tables: seq<Table>): seq<Row> {
    if tables == [] then [] else Concat(tables[..|tables| - 1]) + tables[|tables| - 1]
  }

  /** What the bulk lookup should say: the majority over every row of every table. */
  function BulkAnswer(tables: seq<Table>, b: string): int {
    Majority(Votes(Concat(tables), b))
  }

  /** The tally counts the rows of the address with 0 and with 1, repeated rows as often as they occur. */
  lemma {:induction false} VotesAreCounts(rows: seq<Row>, b: string)
    ensures Votes(rows, b) == Tally(multiset(rows)[Row(b, 0)], multiset(rows)[Row(b, 1)])
  {
    if rows == [] {
    } else {
      VotesAreCounts(rows[..|rows| - 1], b);
      assert rows == rows[..|rows| - 1] + [rows[|rows| - 1]];
    }
  }

  // ---------- The bulk lookup ----------

  function Matching(rows: seq<Row>, bs: set<string>): seq<Row> {
    if rows == [] then []
    else
      var rest, row := Matching(rows[..|rows| - 1], bs), rows[|rows| - 1];
      if row.bdaddr in bs then rest + [row] else rest
  }

  lemma {:induction false} VotesAppend(xs: seq<Row>, ys: seq<Row>, b: string)
    ensures var x, y, all := Votes(xs, b), Votes(ys, b), Votes(xs + ys, b);
            all == Tally(x.zeros + y.zeros, x.ones + y.ones)
  {
    if ys == [] {
      assert xs + ys == xs;
    } else {
      assert (xs + ys)[..|xs + ys| - 1] == xs + ys[..|ys| - 1];
      VotesAppend(xs, ys[..|ys| - 1], b);
    }
  }

  lemma {:induction false} VotesOfMatching(rows: seq<Row>, bs: set<string>, b: string)
    ensures Votes(Matching(rows, bs), b) == if b in bs then Votes(rows, b) else Tally(0, 0)
  {
    if rows == [] {
    } else {
      var init, row := rows[..|rows| - 1], rows[|rows| - 1];
      VotesOfMatching(init, bs, b);
      VotesAppend(Matching(init, bs), [row], b);
      assert [row][..0] == [];
    }
  }

  /** One chunk's UNION ALL: the rows of all tables whose address is in the chunk. */
  method QueryChunk(tables: seq<Table>, chunk: seq<string>) returns (rows: seq<Row>)
    ensures forall b :: Votes(rows, b) == if b in chunk then Votes(Concat(tables), b) else Tally(0, 0)
  {
    rows := [];
    var bs := set b | b in chunk;
    for i := 0 to |tables|
      invariant forall b :: Votes(rows, b) == if b in chunk then Votes(Concat(tables[..i]), b) else Tally(0, 0)
    {
      assert tables[..i + 1][..i] == tables[..i];
      var more := Matching(tables[i], bs);
      forall b ensures Votes(rows + more, b) == if b in chunk then Votes(Concat(tables[..i + 1]), b) else Tally(0, 0) {
        VotesAppend(rows, more, b);
        VotesOfMatching(tables[i], bs, b);
        VotesAppend(Concat(tables[..i]), tables[i], b);
      }
      rows := rows + more;
    }
    assert tables[..|tables|] == tables;
  }

  function CountOf(counts: map<string, Tally>, b: string): Tally {
    if b in counts then counts[b] else Tally(0, 0)
  }

  method CountRows(counts0: map<string, Tally>, rows: seq<Row>) returns (counts: map<string, Tally>)
    ensures forall b :: var c, v := CountOf(counts0, b), Votes(rows, b);
                        CountOf(counts, b) == Tally(c.zeros + v.zeros, c.ones + v.ones)
  {
    counts := counts0;
    for j := 0 to |rows|
      invariant forall b :: var c, v := CountOf(counts0, b), Votes(rows[..j], b);
                            CountOf(counts, b) == Tally(c.zeros + v.zeros, c.ones + v.ones)
    {
      assert rows[..j + 1][..j] == rows[..j];
      counts := counts[rows[j].bdaddr := Vote(CountOf(counts, rows[j].bdaddr), rows[j].random)];
    }
    assert rows[..|rows|] == rows;
  }

  lemma ChunksAreApart(list: seq<string>, i: nat, end: nat)
    requires i <= end <= |list| && forall j, k :: 0 <= j < k < |list| ==> list[j] != list[k]
    ensures forall b :: b in list[..end] <==> b in list[..i] || b in list[i..end]
    ensures forall b :: b in list[..i] ==> b !in list[i..end]
  {
    assert list[..end] == list[..i] + list[i..end];
  }

  lemma NoTables()
    ensures forall b :: BulkAnswer([], b) == 1
  {
  }

  /** The answers do not depend on how the addresses are cut into chunks. */
  method BatchFindBdaddrRand(tables: seq<Table>, bdaddrs: seq<string>, chunkSize: nat)
      returns (result: map<string, int>)
    requires chunkSize > 0
    ensures result.Keys == set b | b in bdaddrs && b != ""
    ensures forall b :: b in result ==>
              var rows := multiset(Concat(tables));
              result[b] == BulkAnswer(tables, b) == if rows[Row(b, 0)] > rows[Row(b, 1)] then 0 else 1
  {
    hide Votes, Concat;
    forall b ensures Votes(Concat(tables), b) ==
                     Tally(multiset(Concat(tables))[Row(b, 0)], multiset(Concat(tables))[Row(b, 1)]) {
      VotesAreCounts(Concat(tables), b);
    }
    var uniqueBdaddrs := ListOf(set b | b in bdaddrs && b != "");
    if tables == [] {
      NoTables();
      return map b | b in uniqueBdaddrs :: 1;
    }
    var counts: map<string, Tally> := map[];
    var i := 0;
    while i < |uniqueBdaddrs|
      invariant i <= |uniqueBdaddrs|
      invariant forall b :: CountOf(counts, b) == if b in uniqueBdaddrs[..i] then Votes(Concat(tables), b)
                  else Tally(0, 0)
      decreases |uniqueBdaddrs| - i
    {
      var end := if i + chunkSize < |uniqueBdaddrs| then i + chunkSize else |uniqueBdaddrs|;
      var chunk := uniqueBdaddrs[i..end];
      var rows := QueryChunk(tables, chunk);
      ghost var before := counts;
      counts := CountRows(counts, rows);
      ChunksAreApart(uniqueBdaddrs, i, end);
      forall b ensures CountOf(counts, b) ==
                       if b in uniqueBdaddrs[..end] then Votes(Concat(tables), b) else Tally(0, 0) {
        assert CountOf(before, b) == if b in uniqueBdaddrs[..i] then Votes(Concat(tables), b) else Tally(0, 0);
        assert Votes(rows, b) == if b in chunk then Votes(Concat(tables), b) else Tally(0, 0);
      }
      i := end;
    }
    assert uniqueBdaddrs[..|uniqueBdaddrs|] == uniqueBdaddrs;
    result := map b | b in uniqueBdaddrs :: Majority(CountOf(counts, b));
  }

  // ---------- The single lookup ----------

  /** A table may return this row, or no row. */
  ghost predicate MayReturn(table: Table, b: string, returned: Option<Row>) {
    match returned
    case Some(row) => row in table && row.bdaddr == b
    case None => forall row :: row in table ==> row.bdaddr != b
  }

  /** One row of each table that knows the address: whichever the database returns for LIMIT 1. */
  ghost predicate Returned(tables: seq<Table>, b: string, rows: seq<Option<Row>>) {
    |rows| == |tables| && forall t :: 0 <= t < |tables| ==> MayReturn(tables[t], b, rows[t])
  }

  /** How many of the returned rows have this value. */
  ghost function RowsWith(rows: seq<Option<Row>>, random: int): nat {
    |set t: nat | t < |rows| && rows[t].Some? && rows[t].value.random == random|
  }

  lemma RowsWithSnoc(rows: seq<Option<Row>>, r: Option<Row>, random: int)
    ensures RowsWith(rows + [r], random) ==
            RowsWith(rows, random) + if r.Some? && r.value.random == random then 1 else 0
  {
    var all := rows + [r];
    var before := set t: nat | t < |rows| && rows[t].Some? && rows[t].value.random == random;
    var after := set t: nat | t < |all| && all[t].Some? && all[t].value.random == random;
    assert after == if r.Some? && r.value.random == random then before + {|rows|} else before;
  }

  lemma {:induction false} ScoreIsCounts(rows: seq<Option<Row>>)
    ensures Score(rows) == RowsWith(rows, 0) - RowsWith(rows, 1)
  {
    if rows == [] {
    } else {
      hide RowsWith;
      var init, r := rows[..|rows| - 1], rows[|rows| - 1];
      ScoreIsCounts(init);
      RowsWithSnoc(init, r, 0);
      RowsWithSnoc(init, r, 1);
      assert rows == init + [r];
    }
  }

  method FindBdaddrRand(tables: seq<Table>, b: string, rows: seq<Option<Row>>) returns (answer: int)
    requires Returned(tables, b, rows)
    ensures answer == SingleAnswer(rows) == if RowsWith(rows, 0) > RowsWith(rows, 1) then 0 else 1
  {
    ScoreIsCounts(rows);
    if tables == [] {
      return 1;
    }
    var zeros, ones := 0, 0;
    for t := 0 to |rows|
      invariant zeros - ones == Score(rows[..t])
    {
      assert rows[..t + 1][..t] == rows[..t];
      if rows[t].Some? {
        if rows[t].value.random == 0 {
          zeros := zeros + 1;
        } else if rows[t].value.random == 1 {
          ones := ones + 1;
        }
      }
    }
    assert rows[..|rows|] == rows;
    answer := if zeros == ones then 1 else if zeros > ones then 0 else 1;
  }

  /** How much a value speaks for "public" (0). */
  function Weight(random: int): int {
    if random == 0 then 1 else if random == 1 then -1 else 0
  }

  function Score(rows: seq<Option<Row>>): int {
    if rows == [] then 0
    else Score(rows[..|rows| - 1]) + match rows[|rows| - 1] case None => 0 case Some(row) => Weight(row.random)
  }

  function SingleAnswer(rows: seq<Option<Row>>): int {
    if Score(rows) > 0 then 0 else 1
  }

  // ---------- When the two lookups agree ----------

  ghost predicate Has(table: Table, b: string, random: int) {
    exists row :: row in table && row.bdaddr == b && row.random == random
  }

  ghost predicate Knows(table: Table, b: string) {
    exists row :: row in table && row.bdaddr == b
  }

  /** The least and the most a table can contribute, depending on the row it returns. */
  ghost function Least(table: Table, b: string): int {
    if Has(table, b, 1) then -1
    else if Knows(table, b) && forall row :: row in table && row.bdaddr == b ==> row.random == 0 then 1
    else 0
  }

  ghost function Most(table: Table, b: string): int {
    if Has(table, b, 0) then 1
    else if Knows(table, b) && forall row :: row in table && row.bdaddr == b ==> row.random == 1 then -1
    else 0
  }

  ghost function LeastScore(tables: seq<Table>, b: string): int {
    if tables == [] then 0 else LeastScore(tables[..|tables| - 1], b) + Least(tables[|tables| - 1], b)
  }

  ghost function MostScore(tables: seq<Table>, b: string): int {
    if tables == [] then 0 else MostScore(tables[..|tables| - 1], b) + Most(tables[|tables| - 1], b)
  }

  lemma {:induction false} ScoreBounds(tables: seq<Table>, b: string, rows: seq<Option<Row>>)
    requires Returned(tables, b, rows)
    ensures LeastScore(tables, b) <= Score(rows) <= MostScore(tables, b)
  {
    if tables == [] {
    } else {
      var n := |tables| - 1;
      ReturnedInit(tables, b, rows);
      ScoreBounds(tables[..n], b, rows[..n]);
      OneTableBounds(tables[n], b, rows[n]);
    }
  }

  lemma ReturnedInit(tables: seq<Table>, b: string, rows: seq<Option<Row>>)
    requires tables != [] && Returned(tables, b, rows)
    ensures Returned(tables[..|tables| - 1], b, rows[..|rows| - 1])
  {
  }

  lemma OneTableBounds(table: Table, b: string, returned: Option<Row>)
    requires MayReturn(table, b, returned)
    ensures Least(table, b) <= (match returned case None => 0 case Some(row) => Weight(row.random)) <= Most(table, b)
  {
    if returned.Some? {
      assert Knows(table, b) && Has(table, b, returned.value.random);
    }
  }

  lemma PickLeast(table: Table, b: string) returns (r: Option<Row>)
    ensures match r
            case Some(row) => row in table && row.bdaddr == b && Weight(row.random) == Least(table, b)
            case None => (forall row :: row in table ==> row.bdaddr != b) && Least(table, b) == 0
  {
    if Has(table, b, 1) {
      var row :| row in table && row.bdaddr == b && row.random == 1;
      r := Some(row);
    } else if Knows(table, b) {
      if forall row :: row in table && row.bdaddr == b ==> row.random == 0 {
        var row :| row in table && row.bdaddr == b;
        r := Some(row);
      } else {
        var row :| row in table && row.bdaddr == b && row.random != 0;
        assert Has(table, b, row.random);
        r := Some(row);
      }
    } else {
      r := None;
    }
  }

  lemma PickMost(table: Table, b: string) returns (r: Option<Row>)
    ensures match r
            case Some(row) => row in table && row.bdaddr == b && Weight(row.random) == Most(table, b)
            case None => (forall row :: row in table ==> row.bdaddr != b) && Most(table, b) == 0
  {
    if Has(table, b, 0) {
      var row :| row in table && row.bdaddr == b && row.random == 0;
      r := Some(row);
    } else if Knows(table, b) {
      if forall row :: row in table && row.bdaddr == b ==> row.random == 1 {
        var row :| row in table && row.bdaddr == b;
        r := Some(row);
      } else {
        var row :| row in table && row.bdaddr == b && row.random != 1;
        assert Has(table, b, row.random);
        r := Some(row);
      }
    } else {
      r := None;
    }
  }

  lemma ReturnedSnoc(tables: seq<Table>, b: string, rows: seq<Option<Row>>, returned: Option<Row>)
    requires tables != [] && Returned(tables[..|tables| - 1], b, rows) && MayReturn(tables[|tables| - 1], b, returned)
    ensures Returned(tables, b, rows + [returned])
    ensures Score(rows + [returned]) == Score(rows) + match returned case None => 0 case Some(row) => Weight(row.random)
  {
    var n := |tables| - 1;
    assert (rows + [returned])[..n] == rows;
    forall t | 0 <= t < n ensures tables[..n][t] == tables[t] && (rows + [returned])[t] == rows[t] {}
  }

  lemma {:induction false} BoundsAreReached(tables: seq<Table>, b: string)
    returns (least: seq<Option<Row>>, most: seq<Option<Row>>)
    ensures Returned(tables, b, least) && Score(least) == LeastScore(tables, b)
    ensures Returned(tables, b, most) && Score(most) == MostScore(tables, b)
  {
    if tables == [] {
      least, most := [], [];
    } else {
      hide Returned, Score, Least, Most;
      var n := |tables| - 1;
      var l, m := BoundsAreReached(tables[..n], b);
      var x := PickLeast(tables[n], b);
      var y := PickMost(tables[n], b);
      ReturnedSnoc(tables, b, l, x);
      ReturnedSnoc(tables, b, m, y);
      least, most := l + [x], m + [y];
    }
  }

  /** The single lookup is sure to agree with the bulk one exactly when even its worst choice of rows does. */
  lemma LookupsAgreeExactly(tables: seq<Table>, b: string)
    ensures (forall rows :: Returned(tables, b, rows) ==> SingleAnswer(rows) == BulkAnswer(tables, b)) <==>
            if BulkAnswer(tables, b) == 0 then LeastScore(tables, b) > 0 else MostScore(tables, b) <= 0
  {
    var least, most := BoundsAreReached(tables, b);
    forall rows | Returned(tables, b, rows) ensures LeastScore(tables, b) <= Score(rows) <= MostScore(tables, b) {
      ScoreBounds(tables, b, rows);
    }
    assert SingleAnswer(least) == if LeastScore(tables, b) > 0 then 0 else 1;
    assert SingleAnswer(most) == if MostScore(tables, b) > 0 then 0 else 1;
  }

  predicate AtMostOneRow(table: Table, b: string) {
    forall i, j :: 0 <= i < j < |table| && table[i].bdaddr == b ==> table[j].bdaddr != b
  }

  lemma OnlyRowDecides(table: Table, b: string, row: Row)
    requires row in table && row.bdaddr == b && forall x :: x in table && x.bdaddr == b ==> x == row
    ensures Least(table, b) == Most(table, b) == Weight(row.random)
  {
    assert Knows(table, b) && Has(table, b, row.random);
    assert forall r :: Has(table, b, r) ==> r == row.random;
  }

  lemma {:induction false} NoVotes(table: Table, b: string)
    requires forall x :: x in table ==> x.bdaddr != b
    ensures Votes(table, b) == Tally(0, 0)
  {
    if table == [] {
    } else {
      NoVotes(table[..|table| - 1], b);
    }
  }

  lemma {:induction false} OneRowVotes(table: Table, b: string)
    requires AtMostOneRow(table, b)
    ensures var v := Votes(table, b); Least(table, b) == Most(table, b) == v.zeros - v.ones
  {
    if table == [] {
    } else {
      hide Least, Most;
      var init, row := table[..|table| - 1], table[|table| - 1];
      assert table == init + [row];
      if row.bdaddr == b {
        assert forall x :: x in init ==> x.bdaddr != b;
        NoVotes(init, b);
        OnlyRowDecides(table, b, row);
      } else {
        assert forall x :: x in table && x.bdaddr == b <==> x in init && x.bdaddr == b;
        OneRowVotes(init, b);
        SameRowsSameBounds(init, table, b);
      }
    }
  }

  lemma SameRowsSameBounds(s: Table, t: Table, b: string)
    requires forall x :: x in s && x.bdaddr == b <==> x in t && x.bdaddr == b
    ensures Least(s, b) == Least(t, b) && Most(s, b) == Most(t, b)
  {
  }

  lemma {:induction false} OneRowScores(tables: seq<Table>, b: string)
    requires forall t :: t in tables ==> AtMostOneRow(t, b)
    ensures var v := Votes(Concat(tables), b);
            LeastScore(tables, b) == MostScore(tables, b) == v.zeros - v.ones
  {
    if tables == [] {
    } else {
      var n := |tables| - 1;
      assert tables[n] in tables && forall t :: t in tables[..n] ==> t in tables;
      OneRowScores(tables[..n], b);
      OneRowVotes(tables[n], b);
      VotesAppend(Concat(tables[..n]), tables[n], b);
    }
  }

  /** With at most one row per table the two lookups always agree. */
  lemma OneRowLookupsAgree(tables: seq<Table>, b: string, rows: seq<Option<Row>>)
    requires forall t :: t in tables ==> AtMostOneRow(t, b)
    requires Returned(tables, b, rows)
    ensures SingleAnswer(rows) == BulkAnswer(tables, b)
  {
    OneRowScores(tables, b);
    ScoreBounds(tables, b, rows);
  }

  lemma ScoreSnoc(rows: seq<Option<Row>>, r: Row)
    ensures Score(rows + [Some(r)]) == Score(rows) + Weight(r.random)
  {
    assert (rows + [Some(r)])[..|rows|] == rows;
  }

  lemma VotesSnoc(rows: seq<Row>, r: Row, b: string)
    ensures Votes(rows + [r], b) == if r.bdaddr == b then Vote(Votes(rows, b), r.random) else Votes(rows, b)
  {
    assert (rows + [r])[..|rows|] == rows;
  }

  lemma ConcatSnoc(tables: seq<Table>, t: Table)
    ensures Concat(tables + [t]) == Concat(tables) + t
  {
    assert (tables + [t])[..|tables|] == tables;
  }

  lemma WitnessVotes(b: string)
    ensures Votes([Row(b, 0), Row(b, 0), Row(b, 1)], b) == Tally(2, 1)
  {
    hide Votes;
    var zero, one := Row(b, 0), Row(b, 1);
    NoVotes([], b);
    assert [] + [zero] == [zero] && [zero] + [zero] == [zero, zero] && [zero, zero] + [one] == [zero, zero, one];
    VotesSnoc([], zero, b);
    VotesSnoc([zero], zero, b);
    VotesSnoc([zero, zero], one, b);
  }

  lemma WitnessScore(b: string)
    ensures Score([Some(Row(b, 0)), Some(Row(b, 1))]) == 0
  {
    ScoreSnoc([], Row(b, 0));
    ScoreSnoc([Some(Row(b, 0))], Row(b, 1));
    assert [] + [Some(Row(b, 0))] == [Some(Row(b, 0))];
    assert [Some(Row(b, 0))] + [Some(Row(b, 1))] == [Some(Row(b, 0)), Some(Row(b, 1))];
  }

  lemma ConcatOfTwo(s: Table, t: Table)
    ensures Concat([s, t]) == s + t
  {
    ConcatSnoc([s], t);
    ConcatSnoc([], s);
    assert [] + [s] == [s] && [s] + [t] == [s, t] && [] + s == s;
  }

  lemma WitnessReturned(b: string)
    ensures Returned([[Row(b, 0), Row(b, 0)], [Row(b, 1)]], b, [Some(Row(b, 0)), Some(Row(b, 1))])
  {
    var tables, rows := [[Row(b, 0), Row(b, 0)], [Row(b, 1)]], [Some(Row(b, 0)), Some(Row(b, 1))];
    assert tables[0][0] == Row(b, 0) && tables[1][0] == Row(b, 1);
    forall t | 0 <= t < |tables| ensures rows[t].Some? && rows[t].value in tables[t] && rows[t].value.bdaddr == b {
      assert t == 0 || t == 1;
    }
  }

  /** A table with two rows outvotes another in the bulk lookup only. */
  lemma LookupsDiffer(b: string)
    ensures var busy, quiet := [Row(b, 0), Row(b, 0)], [Row(b, 1)];
            var rows := [Some(Row(b, 0)), Some(Row(b, 1))];
            && Returned([busy, quiet], b, rows)
            && SingleAnswer(rows) == 1 && BulkAnswer([busy, quiet], b) == 0
  {
    hide Votes, Score, Concat;
    var busy, quiet := [Row(b, 0), Row(b, 0)], [Row(b, 1)];
    var rows := [Some(Row(b, 0)), Some(Row(b, 1))];
    WitnessReturned(b);
    WitnessScore(b);
    assert SingleAnswer(rows) == 1;
    WitnessVotes(b);
    ConcatOfTwo(busy, quiet);
    assert busy + quiet == [Row(b, 0), Row(b, 0), Row(b, 1)];
    assert BulkAnswer([busy, quiet], b) == 0;
  }
}
