/** The all-time points ranking shown in the site's footer: a fixed table of
    ten players, displayed sorted by points (most first) and numbered by
    displayed position, with one highlighted player and a hovered row. */
module StatsFooter {

  datatype Option<T> = None | Some(value: T)

  /** One record of the table.  `rank` is stored but never displayed. */
  datatype Player = Player(rank: nat, name: string, points: nat, years: string, highlighted: bool)

  /** The table in its stored order. */
  const RankingData: seq<Player> := [
    Player(1, "Mats Sundin", 987, "1994-2008", false),
    Player(2, "Darryl Sittler", 916, "1970-1982", false),
    Player(3, "Borje Salming", 768, "1973-1989", false),
    Player(4, "Dave Keon", 758, "1960-1975", false),
    Player(5, "Ron Ellis", 640, "1963-1981", false),
    Player(6, "Auston Matthews", 634, "2016-2025", false),
    Player(7, "Mitch Marner", 652, "2016-2025", true),
    Player(8, "George Armstrong", 613, "1949-1971", false),
    Player(9, "Frank Mahovlich", 597, "1956-1968", false),
    Player(10, "John Tavares", 422, "2018-2025", false)
  ]

  // ---------------------------------------------------------------------
  // Sorting by points

  /** No player has more points than one shown above it. */
  ghost predicate ByPointsDescending(s: seq<Player>) {
    forall i, j :: 0 <= i < j < |s| ==> s[i].points >= s[j].points
  }

  /** Every player has strictly fewer points than each one above it. */
  ghost predicate ByPointsStrictlyDescending(s: seq<Player>) {
    forall i, j :: 0 <= i < j < |s| ==> s[i].points > s[j].points
  }

  /** Inserts `p` before the first player with at most as many points, so
      that `p` stays ahead of players it ties with. */
  function Insert(p: Player, s: seq<Player>): (r: seq<Player>)
    ensures |r| == |s| + 1
    ensures multiset(r) == multiset(s) + multiset{p}
  {
    if s == [] then [p]
    else if p.points >= s[0].points then [p] + s
    else
      assert s == [s[0]] + s[1..];
      [s[0]] + Insert(p, s[1..])
  }

  /** Inserting into a descending sequence keeps it descending. */
  lemma {:induction false} InsertKeepsDescending(p: Player, s: seq<Player>)
    requires ByPointsDescending(s)
    ensures ByPointsDescending(Insert(p, s))
    decreases |s|
  {
    if s == [] {
    } else if p.points >= s[0].points {
      ConsKeepsDescending(p, s);
    } else {
      var rest := Insert(p, s[1..]);
      InsertKeepsDescending(p, s[1..]);
      forall x | x in rest ensures x.points <= s[0].points {
        assert x in multiset(rest);
      }
      ConsKeepsDescending(s[0], rest);
    }
  }

  /** A player put in front of a descending sequence whose players have no
      more points than it gives a descending sequence. */
  lemma ConsKeepsDescending(h: Player, s: seq<Player>)
    requires ByPointsDescending(s)
    requires forall x :: x in s ==> x.points <= h.points
    ensures ByPointsDescending([h] + s)
  {
  }

  /** The comparator sort `(a, b) => b.points - a.points`, stable: players
      with equal points keep their stored order.  The result is a
      rearrangement of the input in which points never increase. */
  function SortByPoints(s: seq<Player>): (r: seq<Player>)
    ensures |r| == |s|
    ensures multiset(r) == multiset(s)
    ensures ByPointsDescending(r)
  {
    if s == [] then []
    else
      assert s == [s[0]] + s[1..];
      var rest := SortByPoints(s[1..]);
      InsertKeepsDescending(s[0], rest);
      Insert(s[0], rest)
  }

  /** `sortedData`: a sorted copy; the stored table itself is a value and is
      not reordered. */
  function SortedData(): (r: seq<Player>)
    ensures multiset(r) == multiset(RankingData)
    ensures ByPointsDescending(r)
  {
    SortByPoints(RankingData)
  }

  /** A strictly descending sequence is the only descending rearrangement of
      its elements: whatever sorting algorithm runs, a table with distinct
      points is displayed in one order. */
  lemma {:induction false} DescendingRearrangementUnique(a: seq<Player>, b: seq<Player>)
    requires ByPointsStrictlyDescending(a) && ByPointsDescending(b)
    requires multiset(a) == multiset(b)
    ensures a == b
    decreases |a|
  {
    if a == [] {
      assert |multiset(b)| == 0;
    } else {
      SameFirst(a, b);
      SameRest(a, b);
      DescendingRearrangementUnique(a[1..], b[1..]);
      assert a == [a[0]] + a[1..] && b == [b[0]] + b[1..];
    }
  }

  /** The top of a strictly descending sequence is the top of every
      descending rearrangement of it. */
  lemma SameFirst(a: seq<Player>, b: seq<Player>)
    requires a != [] && ByPointsStrictlyDescending(a) && ByPointsDescending(b)
    requires multiset(a) == multiset(b)
    ensures b != [] && a[0] == b[0]
  {
    assert a[0] in multiset(b);
    var k :| 0 <= k < |b| && b[k] == a[0];
    assert b[0] in multiset(a);
    var j :| 0 <= j < |a| && a[j] == b[0];
    assert a[0].points >= b[0].points >= a[0].points;
    assert j == 0;
  }

  lemma SameRest<T>(a: seq<T>, b: seq<T>)
    requires a != [] && b != [] && a[0] == b[0]
    requires multiset(a) == multiset(b)
    ensures multiset(a[1..]) == multiset(b[1..])
  {
    assert a == [a[0]] + a[1..] && b == [b[0]] + b[1..];
    assert multiset(a[1..]) == multiset(a) - multiset{a[0]};
    assert multiset(b[1..]) == multiset(b) - multiset{b[0]};
  }

  /** What every correct sort of the table returns: a descending
      rearrangement of it. */
  ghost predicate SortedCopy(sorted: seq<Player>) {
    multiset(sorted) == multiset(RankingData) && ByPointsDescending(sorted)
  }

  /** The displayed order of the table: Marner (652 points, stored rank 7)
      moves up to fifth, ahead of Ellis (640, stored rank 5) and Matthews
      (634, stored rank 6); everyone else keeps their stored place. */
  const DisplayOrder: seq<Player> :=
    [RankingData[0], RankingData[1], RankingData[2], RankingData[3], RankingData[6],
     RankingData[4], RankingData[5], RankingData[7], RankingData[8], RankingData[9]]

  /** Moving one element two places forward is a rearrangement. */
  lemma RotateThree<T>(s: seq<T>, i: nat)
    requires i + 3 <= |s|
    ensures multiset(s[..i] + [s[i + 2], s[i], s[i + 1]] + s[i + 3..]) == multiset(s)
  {
    var a, b := s[..i], s[i + 3..];
    var x, y, z := s[i], s[i + 1], s[i + 2];
    assert s == a + [x, y, z] + b;
    assert multiset(a + [z, x, y] + b) == multiset(a) + multiset([z, x, y]) + multiset(b);
    assert multiset(a + [x, y, z] + b) == multiset(a) + multiset([x, y, z]) + multiset(b);
    assert multiset([z, x, y]) == multiset([x, y, z]);
  }

  /** Moving the fifth of ten elements behind the seventh is a
      rearrangement. */
  lemma MoveUpTwo<T>(s: seq<T>)
    requires |s| == 10
    ensures multiset([s[0], s[1], s[2], s[3], s[6], s[4], s[5], s[7], s[8], s[9]]) == multiset(s)
  {
    RotateThree(s, 4);
    assert [s[0], s[1], s[2], s[3], s[6], s[4], s[5], s[7], s[8], s[9]] == s[..4] + [s[6], s[4], s[5]] + s[7..];
  }

  lemma DisplayOrderRearranges()
    ensures multiset(DisplayOrder) == multiset(RankingData)
  {
    MoveUpTwo(RankingData);
  }

  lemma DisplayOrderStrictlyDescending()
    ensures ByPointsStrictlyDescending(DisplayOrder)
  {
  }

  /** Every sorted copy of the table is in the display order, which differs
      from the stored order. */
  lemma SortedCopyOrder(sorted: seq<Player>)
    requires SortedCopy(sorted)
    ensures sorted == DisplayOrder
    ensures sorted != RankingData
  {
    DisplayOrderRearranges();
    DisplayOrderStrictlyDescending();
    DescendingRearrangementUnique(DisplayOrder, sorted);
    assert DisplayOrder[4].rank != RankingData[4].rank;
  }

  /** In particular `sortedData` is. */
  lemma SortedDataOrder()
    ensures SortedData() == DisplayOrder
  {
    SortedCopyOrder(SortedData());
  }

  // ---------------------------------------------------------------------
  // The highlighted flag

  function CountHighlighted(s: seq<Player>): nat {
    if s == [] then 0 else (if s[0].highlighted then 1 else 0) + CountHighlighted(s[1..])
  }

  lemma {:induction false} CountHighlightedInsert(p: Player, s: seq<Player>)
    ensures CountHighlighted(Insert(p, s)) == CountHighlighted(s) + (if p.highlighted then 1 else 0)
    decreases |s|
  {
    if s != [] && p.points < s[0].points {
      CountHighlightedInsert(p, s[1..]);
      assert ([s[0]] + Insert(p, s[1..]))[1..] == Insert(p, s[1..]);
    } else if s != [] {
      assert ([p] + s)[1..] == s;
    }
  }

  /** Sorting moves records whole: the number of highlighted records is
      unchanged. */
  lemma {:induction false} SortKeepsHighlighted(s: seq<Player>)
    ensures CountHighlighted(SortByPoints(s)) == CountHighlighted(s)
    decreases |s|
  {
    if s != [] {
      SortKeepsHighlighted(s[1..]);
      CountHighlightedInsert(s[0], SortByPoints(s[1..]));
    }
  }

  // ---------------------------------------------------------------------
  // The displayed rows

  /** What one displayed row shows: its position in the sorted table (not
      the stored rank), the player's name, points and years, whether it is
      styled as highlighted, and whether it carries the hover style. */
  datatype Row = Row(position: nat, name: string, points: nat, years: string,
                     highlighted: bool, hovered: bool)

  /** The table body: row `i` shows position `i + 1`. */
  function Rows(sorted: seq<Player>, hoveredRow: Option<nat>): (rows: seq<Row>)
    ensures |rows| == |sorted|
  {
    seq(|sorted|, i requires 0 <= i < |sorted| =>
      Row(i + 1, sorted[i].name, sorted[i].points, sorted[i].years,
          sorted[i].highlighted, hoveredRow == Some(i)))
  }

  /** The two styles a row can carry on top of the plain row style. */
  datatype Style = HighlightStyle | HoverStyle

  predicate HasStyle(r: Row, style: Style) {
    match style
    case HighlightStyle => r.highlighted
    case HoverStyle => r.hovered
  }

  /** The number of rows carrying `style`. */
  function CountStyled(rows: seq<Row>, style: Style): nat {
    if rows == [] then 0 else (if HasStyle(rows[0], style) then 1 else 0) + CountStyled(rows[1..], style)
  }

  /** The highlighted style follows the record's own flag, so there are as
      many highlighted rows as highlighted records. */
  lemma {:induction false} RowsKeepHighlighted(sorted: seq<Player>, hoveredRow: Option<nat>)
    ensures CountStyled(Rows(sorted, hoveredRow), HighlightStyle) == CountHighlighted(sorted)
    decreases |sorted|
  {
    if sorted != [] {
      var rows := Rows(sorted, hoveredRow);
      var shifted := match hoveredRow
        case Some(h) => if h == 0 then None else Some(h - 1)
        case None => None;
      RowsKeepHighlighted(sorted[1..], shifted);
      assert CountStyled(rows[1..], HighlightStyle) == CountStyled(Rows(sorted[1..], shifted), HighlightStyle) by {
        assert forall i :: 0 <= i < |rows| - 1 ==> rows[1..][i].highlighted == Rows(sorted[1..], shifted)[i].highlighted;
        StyledCountsAgree(rows[1..], Rows(sorted[1..], shifted), HighlightStyle);
      }
    }
  }

  /** Row sequences that agree on a style, row by row, count it alike. */
  lemma {:induction false} StyledCountsAgree(a: seq<Row>, b: seq<Row>, style: Style)
    requires |a| == |b|
    requires forall i :: 0 <= i < |a| ==> HasStyle(a[i], style) == HasStyle(b[i], style)
    ensures CountStyled(a, style) == CountStyled(b, style)
    decreases |a|
  {
    if a != [] {
      StyledCountsAgree(a[1..], b[1..], style);
    }
  }

  /** When exactly the row at index `h` carries a style, one row carries it
      if `h` is in the table and none otherwise. */
  lemma {:induction false} StyledExactlyAt(rows: seq<Row>, style: Style, h: int)
    requires forall i :: 0 <= i < |rows| ==> (HasStyle(rows[i], style) <==> i == h)
    ensures CountStyled(rows, style) == if 0 <= h < |rows| then 1 else 0
    decreases |rows|
  {
    if rows != [] {
      assert HasStyle(rows[0], style) <==> h == 0;
      StyledExactlyAt(rows[1..], style, h - 1);
    }
  }

  /** Exactly the row at the hovered index carries the hover style: one row
      when the index is in the table, none otherwise. */
  lemma RowsHovered(sorted: seq<Player>, hoveredRow: Option<nat>)
    ensures CountStyled(Rows(sorted, hoveredRow), HoverStyle) ==
      if hoveredRow.Some? && hoveredRow.value < |sorted| then 1 else 0
  {
    var h := if hoveredRow.Some? then hoveredRow.value else -1;
    StyledExactlyAt(Rows(sorted, hoveredRow), HoverStyle, h);
  }

  /** Who stands where in the display order. */
  lemma DisplayOrderEntries()
    ensures |DisplayOrder| == 10
    ensures DisplayOrder[4].name == "Mitch Marner" && DisplayOrder[4].rank == 7
    ensures DisplayOrder[5].name == "Ron Ellis" && DisplayOrder[5].rank == 5
    ensures DisplayOrder[6].name == "Auston Matthews" && DisplayOrder[6].rank == 6
    ensures forall i :: 0 <= i < 10 && i != 4 && i != 5 && i != 6 ==> DisplayOrder[i].rank == i + 1
    ensures forall i :: 0 <= i < 10 ==> (DisplayOrder[i].highlighted <==> i == 4)
  {
  }

  /** The footer as displayed from any sorted copy (`sortedData` is one):
      Marner is shown at position 5 although his stored rank is 7, Ellis
      (stored 5) at 6 and Matthews (stored 6) at 7; every other row's
      position equals its stored rank. */
  lemma DisplayedPositions(sorted: seq<Player>, hoveredRow: Option<nat>)
    requires SortedCopy(sorted)
    ensures var rows := Rows(sorted, hoveredRow);
      |rows| == 10 &&
      rows[4].name == "Mitch Marner" && rows[4].position == 5 && sorted[4].rank == 7 &&
      rows[5].name == "Ron Ellis" && rows[5].position == 6 && sorted[5].rank == 5 &&
      rows[6].name == "Auston Matthews" && rows[6].position == 7 && sorted[6].rank == 6 &&
      (forall i :: 0 <= i < 10 && i != 4 && i != 5 && i != 6 ==> rows[i].position == sorted[i].rank)
  {
    SortedCopyOrder(sorted);
    DisplayOrderEntries();
  }

  /** The highlighted style is on exactly in the row of the one
      highlighted record. */
  lemma RowsHighlightedAt(sorted: seq<Player>, hoveredRow: Option<nat>, h: nat)
    requires h < |sorted|
    requires forall i :: 0 <= i < |sorted| ==> (sorted[i].highlighted <==> i == h)
    ensures var rows := Rows(sorted, hoveredRow);
      CountStyled(rows, HighlightStyle) == 1 &&
      (forall i :: 0 <= i < |rows| ==> (rows[i].highlighted <==> i == h))
  {
    StyledExactlyAt(Rows(sorted, hoveredRow), HighlightStyle, h);
  }

  /** Exactly one displayed row is highlighted, and it is Marner's. */
  lemma DisplayedHighlight(sorted: seq<Player>, hoveredRow: Option<nat>)
    requires SortedCopy(sorted)
    ensures var rows := Rows(sorted, hoveredRow);
      CountStyled(rows, HighlightStyle) == 1 &&
      (forall i :: 0 <= i < |rows| ==> (rows[i].highlighted <==> i == 4)) &&
      rows[4].name == "Mitch Marner"
  {
    SortedCopyOrder(sorted);
    DisplayOrderEntries();
    RowsHighlightedAt(sorted, hoveredRow, 4);
  }

  // ---------------------------------------------------------------------
  // The hovered row

  /** The two row handlers: entering row `index` and leaving a row. */
  datatype RowEvent = MouseEnter(index: nat) | MouseLeave

  /** `hoveredRow` after one handler runs. */
  function HoverStep(hoveredRow: Option<nat>, e: RowEvent): (r: Option<nat>)
    ensures e.MouseLeave? <==> r == None
    ensures e.MouseEnter? ==> r == Some(e.index)
  {
    match e
    case MouseEnter(index) => Some(index)
    case MouseLeave => None
  }

  /** `hoveredRow` after a sequence of handler runs, starting from `null`. */
  function HoverAfter(events: seq<RowEvent>): Option<nat> {
    if events == [] then None
    else HoverStep(HoverAfter(events[..|events| - 1]), events[|events| - 1])
  }

  /** Only the last handler run matters, and a hovered index always names a
      row some event entered. */
  lemma {:induction false} HoverAfterLastEvent(events: seq<RowEvent>)
    ensures HoverAfter(events) == None <==> (events == [] || events[|events| - 1].MouseLeave?)
    ensures HoverAfter(events).Some? ==> MouseEnter(HoverAfter(events).value) in events
  {
  }
}
