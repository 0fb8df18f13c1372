/**
 * The rank-and-partition rule of the pitcher strikeout edge dashboard.
 *
 * The table holds one row per (pitcher, bookmaker, line). After coercion each
 * edge is either a number (hundredths of a percent) or missing (NaN). The
 * dashboard ranks rows by their larger edge, descending with missing keys
 * last, splits the ranked table into "positive" and "negative or neutral"
 * rows, and colours each edge cell green or red.
 */
module PitcherDashboard {
  import opened Wrappers

  /** The columns the dashboard only carries through: the rounded line and projections, and the odds as read. */
  datatype Info = Info(
    date: string,
    bookmaker: string,
    pitcherName: string,
    line: int,            // tenths of a strikeout
    overOdds: int,        // as read, never rounded or inspected
    underOdds: int,       // as read, never rounded or inspected
    expectedInnings: int, // hundredths of an inning
    projectedKs: int      // hundredths of a strikeout
  )

  /** One prop row; a missing edge is `None`. */
  datatype Row = Row(info: Info, edgeOver: Option<int>, edgeUnder: Option<int>)

  /** The two tables the dashboard shows. */
  datatype Report = Report(positive: seq<Row>, negative: seq<Row>)

  // ---------------------------------------------------------------------------
  // Ranking key

  /** The row's ranking key: the larger edge, skipping a missing one. */
  function MaxEdge(r: Row): (m: Option<int>)
    ensures m.None? <==> r.edgeOver.None? && r.edgeUnder.None?
    ensures r.edgeOver.Some? ==> m.Some? && r.edgeOver.value <= m.value
    ensures r.edgeUnder.Some? ==> m.Some? && r.edgeUnder.value <= m.value
    ensures m.Some? ==> m == r.edgeOver || m == r.edgeUnder
  {
    match (r.edgeOver, r.edgeUnder)
    case (Some(o), Some(u)) => Some(if o >= u then o else u)
    case (Some(o), None) => Some(o)
    case (None, Some(u)) => Some(u)
    case (None, None) => None
  }

  /** Key `a` may stand before key `b`: descending order, missing keys last. */
  predicate KeyAtLeast(a: Option<int>, b: Option<int>) {
    match (a, b)
    case (Some(x), Some(y)) => x >= y
    case (_, None) => true
    case (None, Some(_)) => false
  }

  /** The table is ordered descending by `MaxEdge`, rows without a key last. */
  ghost predicate Ranked(t: seq<Row>) {
    forall i, j :: 0 <= i < j < |t| ==> KeyAtLeast(MaxEdge(t[i]), MaxEdge(t[j]))
  }

  /** `t` is a possible result of sorting `rows`: the same rows, ranked. Ties may come in any order. */
  ghost predicate IsSortedTable(rows: seq<Row>, t: seq<Row>) {
    multiset(t) == multiset(rows) && Ranked(t)
  }

  /** Ranked means: present keys never increase, and no present key follows a missing one. */
  lemma RankedMeansDescendingMissingLast(t: seq<Row>)
    ensures Ranked(t) <==>
      && (forall i, j :: 0 <= i < j < |t| && MaxEdge(t[i]).Some? && MaxEdge(t[j]).Some? ==>
            MaxEdge(t[i]).value >= MaxEdge(t[j]).value)
      && (forall i, j :: 0 <= i < j < |t| && MaxEdge(t[i]).None? ==> MaxEdge(t[j]).None?)
  {
  }

  // ---------------------------------------------------------------------------
  // Sorting

  /** A ranked table stays ranked under a new head whose key is at least every key in it. */
  lemma RankedCons(x: Row, t: seq<Row>)
    requires Ranked(t)
    requires forall y :: y in t ==> KeyAtLeast(MaxEdge(x), MaxEdge(y))
    ensures Ranked([x] + t)
  {
  }

  /** Places `r` into a ranked table, before the first row whose key it reaches. */
  function Insert(r: Row, t: seq<Row>): (u: seq<Row>)
    requires Ranked(t)
    ensures multiset(u) == multiset(t) + multiset{r}
    ensures Ranked(u)
  {
    if t == [] then
      [r]
    else if KeyAtLeast(MaxEdge(r), MaxEdge(t[0])) then
      assert forall y :: y in t ==> KeyAtLeast(MaxEdge(t[0]), MaxEdge(y)) by {
        forall y | y in t ensures KeyAtLeast(MaxEdge(t[0]), MaxEdge(y)) {
          var k :| 0 <= k < |t| && t[k] == y;
          if k > 0 { assert KeyAtLeast(MaxEdge(t[0]), MaxEdge(t[k])); }
        }
      }
      RankedCons(r, t);
      [r] + t
    else
      var rest := Insert(r, t[1..]);
      assert t == [t[0]] + t[1..];
      assert forall y :: y in rest ==> KeyAtLeast(MaxEdge(t[0]), MaxEdge(y)) by {
        forall y | y in rest ensures KeyAtLeast(MaxEdge(t[0]), MaxEdge(y)) {
          assert y in multiset(rest);
          if y != r {
            assert y in multiset(t[1..]);
            var k :| 0 <= k < |t[1..]| && t[1..][k] == y;
            assert t[k + 1] == y;
          }
        }
      }
      RankedCons(t[0], rest);
      [t[0]] + rest
  }

  /** One sort of `rows` descending by `MaxEdge` with missing keys last (insertion sort). */
  function SortByMaxEdge(rows: seq<Row>): (t: seq<Row>)
    ensures IsSortedTable(rows, t)
  {
    if rows == [] then
      []
    else
      assert rows == [rows[0]] + rows[1..];
      Insert(rows[0], SortByMaxEdge(rows[1..]))
  }

  // ---------------------------------------------------------------------------
  // Partition

  /** The positive mask: some edge is present and above zero; a missing edge never is. */
  predicate IsPositive(r: Row): (pos: bool)
    ensures pos <==> MaxEdge(r).Some? && MaxEdge(r).value > 0
  {
    || (r.edgeOver.Some? && r.edgeOver.value > 0)
    || (r.edgeUnder.Some? && r.edgeUnder.value > 0)
  }

  /** Both edges are missing, so the row has no ranking key. */
  predicate BothMissing(r: Row) {
    r.edgeOver.None? && r.edgeUnder.None?
  }

  /** The rows of `t` whose mask value is `positive`, in table order. */
  function Select(t: seq<Row>, positive: bool): (p: seq<Row>)
    ensures |p| <= |t|
    ensures forall r :: r in p <==> r in t && IsPositive(r) == positive
  {
    if t == [] then
      []
    else
      assert t == [t[0]] + t[1..];
      (if IsPositive(t[0]) == positive then [t[0]] else []) + Select(t[1..], positive)
  }

  /** `Select` keeps every copy of each qualifying row and no copy of any other. */
  lemma {:induction false} SelectCount(t: seq<Row>, positive: bool, r: Row)
    ensures multiset(Select(t, positive))[r] == if IsPositive(r) == positive then multiset(t)[r] else 0
  {
    if t != [] {
      assert t == [t[0]] + t[1..];
      SelectCount(t[1..], positive, r);
    }
  }

  /** The boolean-mask split of a table into positive and non-positive rows. */
  function Split(t: seq<Row>): (rep: Report)
    ensures forall r :: r in rep.positive <==> r in t && IsPositive(r)
    ensures forall r :: r in rep.negative <==> r in t && !IsPositive(r)
  {
    Report(Select(t, true), Select(t, false))
  }

  /** The two tables hold every row of `t` exactly as often as `t` does, and share no row. */
  lemma SplitIsExact(t: seq<Row>)
    ensures multiset(Split(t).positive) + multiset(Split(t).negative) == multiset(t)
    ensures multiset(Split(t).positive) !! multiset(Split(t).negative)
  {
    var p, n := multiset(Split(t).positive), multiset(Split(t).negative);
    forall r ensures (p + n)[r] == multiset(t)[r] && (p[r] == 0 || n[r] == 0) {
      SelectCount(t, true, r);
      SelectCount(t, false, r);
    }
  }

  /** The whole pipeline: rank the rows, then split the ranked table. */
  function BuildReport(rows: seq<Row>): (rep: Report)
    ensures IsSortedTable(rows, rep.positive + rep.negative)
    ensures forall r :: r in rep.positive <==> r in rows && IsPositive(r)
    ensures forall r :: r in rep.negative <==> r in rows && !IsPositive(r)
    ensures Ranked(rep.positive) && Ranked(rep.negative)
    ensures rows == [] ==> rep.positive == [] && rep.negative == []
  {
    var t := SortByMaxEdge(rows);
    SortedTableReport(rows, t);
    Split(t)
  }

  // ---------------------------------------------------------------------------
  // Properties of the split

  /** A table with no positive row goes wholly to the negative side. */
  lemma {:induction false} NoPositiveRows(t: seq<Row>)
    requires forall i :: 0 <= i < |t| ==> !IsPositive(t[i])
    ensures Select(t, true) == [] && Select(t, false) == t
  {
    if t != [] {
      NoPositiveRows(t[1..]);
    }
  }

  /** Dropping the head of a ranked table leaves it ranked. */
  lemma RankedTail(t: seq<Row>)
    requires Ranked(t) && t != []
    ensures Ranked(t[1..])
  {
  }

  /** In a ranked table whose head is not positive, no row is positive. */
  lemma NonPositiveHead(t: seq<Row>)
    requires Ranked(t) && t != [] && !IsPositive(t[0])
    ensures forall i :: 0 <= i < |t| ==> !IsPositive(t[i])
  {
  }

  /** In a ranked table the positive rows are a prefix and the other rows the rest. */
  lemma {:induction false} PositivesArePrefix(t: seq<Row>)
    requires Ranked(t)
    ensures Select(t, true) == t[..|Select(t, true)|]
    ensures Select(t, false) == t[|Select(t, true)|..]
  {
    if t == [] {
    } else if IsPositive(t[0]) {
      RankedTail(t);
      PositivesArePrefix(t[1..]);
      var k := |Select(t[1..], true)|;
      assert Select(t, true) == [t[0]] + t[1..][..k];
      assert Select(t, false) == t[1..][k..];
      assert [t[0]] + t[1..][..k] == t[..k + 1];
      assert t[1..][k..] == t[k + 1..];
    } else {
      NonPositiveHead(t);
      NoPositiveRows(t);
    }
  }

  /** What the dashboard shows for any admissible sort of `rows`, whatever order it gives ties. */
  lemma SortedTableReport(rows: seq<Row>, t: seq<Row>)
    requires IsSortedTable(rows, t)
    ensures Split(t).positive + Split(t).negative == t
    ensures forall r :: r in Split(t).positive <==> r in rows && IsPositive(r)
    ensures forall r :: r in Split(t).negative <==> r in rows && !IsPositive(r)
    ensures Ranked(Split(t).positive) && Ranked(Split(t).negative)
  {
    PositivesArePrefix(t);
    var k := |Select(t, true)|;
    assert t == t[..k] + t[k..];
    forall r ensures r in rows <==> r in t {
      assert r in rows <==> r in multiset(rows);
      assert r in t <==> r in multiset(t);
    }
  }

  /** Rows with both edges missing go to the negative table and form its tail. */
  lemma BothMissingAtEnd(rows: seq<Row>, t: seq<Row>)
    requires IsSortedTable(rows, t)
    ensures forall r :: r in rows && BothMissing(r) ==> r in Split(t).negative
    ensures forall i, j :: 0 <= i < j < |Split(t).negative| && BothMissing(Split(t).negative[i]) ==>
      BothMissing(Split(t).negative[j])
  {
    SortedTableReport(rows, t);
    var n := Split(t).negative;
    forall i, j | 0 <= i < j < |n| && BothMissing(n[i]) ensures BothMissing(n[j]) {
      assert KeyAtLeast(MaxEdge(n[i]), MaxEdge(n[j]));
    }
  }

  /** Any two admissible sorts give the same positive and negative rows, counted with repetition. */
  lemma PartitionsIgnoreTieOrder(rows: seq<Row>, t1: seq<Row>, t2: seq<Row>)
    requires IsSortedTable(rows, t1) && IsSortedTable(rows, t2)
    ensures multiset(Split(t1).positive) == multiset(Split(t2).positive)
    ensures multiset(Split(t1).negative) == multiset(Split(t2).negative)
  {
    forall r ensures multiset(Select(t1, true))[r] == multiset(Select(t2, true))[r]
      && multiset(Select(t1, false))[r] == multiset(Select(t2, false))[r]
    {
      SelectCount(t1, true, r);
      SelectCount(t2, true, r);
      SelectCount(t1, false, r);
      SelectCount(t2, false, r);
    }
  }

  /** A row whose over edge failed to parse but whose under edge is positive is ranked by the under edge. */
  lemma MissingOverRankedByUnder(r: Row)
    requires r.edgeOver.None? && r.edgeUnder.Some? && r.edgeUnder.value > 0
    ensures IsPositive(r) && MaxEdge(r) == r.edgeUnder
  {
  }

  // ---------------------------------------------------------------------------
  // Colour hint

  /** The value a styled cell holds: a number, NaN, or something `float()` rejects. */
  datatype Cell = Number(x: int) | NaN | Unparsable

  /** Colour of an edge cell: green above zero, red otherwise (NaN included), blank if not a number. */
  function HighlightEdges(c: Cell): (style: string)
    ensures style == "color: green" <==> c.Number? && c.x > 0
    ensures style == "color: red" <==> c.NaN? || (c.Number? && c.x <= 0)
    ensures style == "" <==> c.Unparsable?
  {
    match c
    case Unparsable => ""
    case Number(x) => if x > 0 then "color: green" else "color: red"
    case NaN => "color: red"
  }

  /** The cell an edge column holds after coercion. */
  function EdgeCell(e: Option<int>): (c: Cell)
    ensures c != Unparsable
  {
    match e
    case Some(x) => Number(x)
    case None => NaN
  }

  /** A row is positive exactly when one of its edge cells shows green; no edge cell is blank. */
  lemma HighlightMatchesPartition(r: Row)
    ensures IsPositive(r) <==>
      HighlightEdges(EdgeCell(r.edgeOver)) == "color: green" ||
      HighlightEdges(EdgeCell(r.edgeUnder)) == "color: green"
    ensures HighlightEdges(EdgeCell(r.edgeOver)) != "" && HighlightEdges(EdgeCell(r.edgeUnder)) != ""
  {
  }

  /** Every row of the negative table shows both edges in red. */
  lemma NegativeRowsShowRed(rows: seq<Row>)
    ensures forall r :: r in BuildReport(rows).negative ==>
      HighlightEdges(EdgeCell(r.edgeOver)) == "color: red" &&
      HighlightEdges(EdgeCell(r.edgeUnder)) == "color: red"
  {
  }
}
