/** The admin product table (static/js/product-table.js): the search box
    that hides rows not containing the typed text, and the header clicks
    that reorder the rows.

    A header's first click reverses the rows as they stand; every later
    click flips that header's direction and sorts on its column. The cell
    comparison (numeric when both cells parse as numbers, `localeCompare`
    otherwise) is a parameter: nothing is claimed about the order it
    induces, only that rows are rearranged and never added or lost.
 */
module ProductTable {
  import opened Text

  /** A table row: its cell texts and its whole text content. */
  datatype Row = Row(cells: seq<string>, text: string)

  /** The search text as the listener prepares it: `trim()`, then
      `toLowerCase()`. */
  function SearchKey(input: string): string {
    Lower(Strip(JavaScript, input))
  }

  /** A row is shown when its lower-cased text contains the search key. */
  ghost predicate RowVisible(text: string, input: string) {
    IsSubstring(SearchKey(input), Lower(text))
  }

  /** An empty or blank search matches every row text. */
  lemma BlankSearchShowsAll(text: string, input: string)
    requires AllSpace(JavaScript, input)
    ensures RowVisible(text, input)
  {
    assert SearchKey(input) == [];
    assert OccursAt(Lower(text), [], 0);
  }

  /** The `input` listener: one visibility flag per row, set exactly when
      the row is visible; a blank search shows every row. */
  method Filter(texts: seq<string>, input: string) returns (shown: seq<bool>)
    ensures |shown| == |texts|
    ensures forall i :: 0 <= i < |texts| ==> (shown[i] <==> RowVisible(texts[i], input))
    ensures AllSpace(JavaScript, input) ==> forall i :: 0 <= i < |texts| ==> shown[i]
  {
    var filter := SearchKey(input);
    shown := [];
    var i := 0;
    while i < |texts|
      invariant i <= |texts|
      invariant |shown| == i
      invariant forall j :: 0 <= j < i ==> (shown[j] <==> RowVisible(texts[j], input))
    {
      var text := Lower(texts[i]);
      IndexOfFindsSubstring(text, filter);
      shown := shown + [IndexOf(text, filter) != -1];
      i := i + 1;
    }
    if AllSpace(JavaScript, input) {
      forall i | 0 <= i < |texts|
        ensures shown[i]
      {
        BlankSearchShowsAll(texts[i], input);
      }
    }
  }

  /** The row order reversed. */
  function Reverse<T>(s: seq<T>): (r: seq<T>)
    ensures |r| == |s|
    ensures forall i :: 0 <= i < |s| ==> r[i] == s[|s| - 1 - i]
    ensures multiset(r) == multiset(s)
  {
    if |s| == 0 then []
    else
      assert s == [s[0]] + s[1..];
      Reverse(s[1..]) + [s[0]]
  }

  /** The cell comparison the page uses for ascending order (after trimming
      both cells). Descending order calls it with the cells swapped. */
  type Comparator = (string, string) -> int

  /** The text of cell `index`, or nothing if the row is too short. */
  function Cell(row: Row, index: nat): string {
    if index < |row.cells| then row.cells[index] else ""
  }

  /** The sort callback for header `index` in the given direction. */
  function CompareRows(a: Row, b: Row, index: nat, ascending: bool, cmp: Comparator): int {
    if ascending then cmp(Cell(a, index), Cell(b, index)) else cmp(Cell(b, index), Cell(a, index))
  }

  /** Places `x` before the first row the callback ranks after it. */
  function Insert(x: Row, sorted: seq<Row>, index: nat, ascending: bool, cmp: Comparator)
    : (r: seq<Row>)
    ensures multiset(r) == multiset(sorted) + multiset{x}
  {
    if |sorted| == 0 then [x]
    else if CompareRows(sorted[0], x, index, ascending, cmp) > 0 then [x] + sorted
    else
      assert sorted == [sorted[0]] + sorted[1..];
      [sorted[0]] + Insert(x, sorted[1..], index, ascending, cmp)
  }

  /** A stable insertion sort with the page's callback; it stands in for the
      browser's `Array.prototype.sort`. */
  function SortRows(rows: seq<Row>, index: nat, ascending: bool, cmp: Comparator): (r: seq<Row>)
    ensures multiset(r) == multiset(rows)
  {
    if |rows| == 0 then []
    else
      assert rows == rows[..|rows| - 1] + [rows[|rows| - 1]];
      Insert(rows[|rows| - 1], SortRows(rows[..|rows| - 1], index, ascending, cmp), index, ascending, cmp)
  }

  /** One header's click state. */
  datatype HeaderState = HeaderState(isFirstClick: bool, ascending: bool)

  /** The state every header starts in. */
  const Unclicked := HeaderState(true, false)

  /** The table body and the click state of each header. */
  datatype Table = Table(rows: seq<Row>, headers: seq<HeaderState>)

  /** Every row has a cell under header `index`. */
  predicate CellsPresent(rows: seq<Row>, index: nat) {
    forall k :: 0 <= k < |rows| ==> index < |rows[k].cells|
  }

  /** How a click moves one header's state, whatever happens to the rows. */
  function Step(h: HeaderState): HeaderState {
    if h.isFirstClick then HeaderState(false, h.ascending) else HeaderState(false, !h.ascending)
  }

  /** A click on header `index`. A later click first flips the direction and
      then sorts; when two or more rows are present and one lacks the cell,
      the callback throws, so the flip stays but the rows do not move. */
  function Click(t: Table, index: nat, cmp: Comparator): (r: Table)
    requires index < |t.headers|
    ensures |r.headers| == |t.headers|
    ensures r.headers[index] == Step(t.headers[index])
    ensures forall j :: 0 <= j < |t.headers| && j != index ==> r.headers[j] == t.headers[j]
    ensures multiset(r.rows) == multiset(t.rows)
    ensures t.headers[index].isFirstClick ==> r.rows == Reverse(t.rows)
    ensures !t.headers[index].isFirstClick && (|t.rows| < 2 || CellsPresent(t.rows, index)) ==>
              r.rows == SortRows(t.rows, index, !t.headers[index].ascending, cmp)
    ensures !t.headers[index].isFirstClick && |t.rows| >= 2 && !CellsPresent(t.rows, index) ==>
              r.rows == t.rows
  {
    var h := t.headers[index];
    var headers := t.headers[index := Step(h)];
    if h.isFirstClick then Table(Reverse(t.rows), headers)
    else if |t.rows| >= 2 && !CellsPresent(t.rows, index) then Table(t.rows, headers)
    else Table(SortRows(t.rows, index, !h.ascending, cmp), headers)
  }

  /** The first click only reverses: the comparison is never consulted. */
  lemma FirstClickIgnoresComparator(t: Table, index: nat, cmp1: Comparator, cmp2: Comparator)
    requires index < |t.headers|
    requires t.headers[index].isFirstClick
    ensures Click(t, index, cmp1) == Click(t, index, cmp2)
  {
  }

  /** Reversing keeps the same rows, so a row lacks a cell after it exactly
      when it did before. */
  lemma ReverseKeepsCells(rows: seq<Row>, index: nat)
    ensures CellsPresent(Reverse(rows), index) <==> CellsPresent(rows, index)
  {
    var r := Reverse(rows);
    if CellsPresent(rows, index) {
      forall k | 0 <= k < |r|
        ensures index < |r[k].cells|
      {
        assert r[k] == rows[|rows| - 1 - k];
      }
    }
    if CellsPresent(r, index) {
      forall k | 0 <= k < |rows|
        ensures index < |rows[k].cells|
      {
        assert rows[k] == r[|rows| - 1 - k];
      }
    }
  }

  /** From the initial state, the second click on a header sorts ascending
      on its column, starting from the reversed rows. */
  lemma SecondClickSortsAscending(t: Table, index: nat, cmp: Comparator)
    requires index < |t.headers|
    requires t.headers[index] == Unclicked
    requires CellsPresent(t.rows, index)
    ensures var t2 := Click(Click(t, index, cmp), index, cmp);
            && t2.headers[index] == HeaderState(false, true)
            && t2.rows == SortRows(Reverse(t.rows), index, true, cmp)
  {
    ReverseKeepsCells(t.rows, index);
  }

  /** A run of clicks on the given headers, in order. */
  function Clicks(t: Table, clicks: seq<nat>, cmp: Comparator): (r: Table)
    requires forall i :: 0 <= i < |clicks| ==> clicks[i] < |t.headers|
    ensures |r.headers| == |t.headers|
    decreases |clicks|
  {
    if |clicks| == 0 then t else Clicks(Click(t, clicks[0], cmp), clicks[1..], cmp)
  }

  /** However many clicks land anywhere, the rows are a rearrangement of the
      original ones. */
  lemma {:induction false} ClicksPermute(t: Table, clicks: seq<nat>, cmp: Comparator)
    requires forall i :: 0 <= i < |clicks| ==> clicks[i] < |t.headers|
    ensures multiset(Clicks(t, clicks, cmp).rows) == multiset(t.rows)
    decreases |clicks|
  {
    if |clicks| > 0 {
      ClicksPermute(Click(t, clicks[0], cmp), clicks[1..], cmp);
    }
  }

  /** How often header `h` occurs in a run of clicks. */
  function Count(clicks: seq<nat>, h: nat): nat {
    if |clicks| == 0 then 0 else (if clicks[0] == h then 1 else 0) + Count(clicks[1..], h)
  }

  /** `Step` applied `n` times. */
  function StepN(s: HeaderState, n: nat): HeaderState
    decreases n
  {
    if n == 0 then s else StepN(Step(s), n - 1)
  }

  /** A header's state depends only on how often it was clicked, never on
      clicks on other headers. */
  lemma {:induction false} HeaderStateAfterClicks(t: Table, clicks: seq<nat>, cmp: Comparator, h: nat)
    requires forall i :: 0 <= i < |clicks| ==> clicks[i] < |t.headers|
    requires h < |t.headers|
    ensures Clicks(t, clicks, cmp).headers[h] == StepN(t.headers[h], Count(clicks, h))
    decreases |clicks|
  {
    if |clicks| > 0 {
      var t1 := Click(t, clicks[0], cmp);
      var rest := clicks[1..];
      assert forall i :: 0 <= i < |rest| ==> rest[i] < |t1.headers|;
      assert Clicks(t, clicks, cmp) == Clicks(t1, rest, cmp);
      HeaderStateAfterClicks(t1, rest, cmp, h);
      if clicks[0] == h {
        assert t1.headers[h] == Step(t.headers[h]);
        assert Count(clicks, h) == Count(rest, h) + 1;
        StepNShift(t.headers[h], Count(rest, h));
      } else {
        assert t1.headers[h] == t.headers[h];
        assert Count(clicks, h) == Count(rest, h);
      }
    }
  }

  lemma {:induction false} StepNShift(s: HeaderState, n: nat)
    ensures StepN(Step(s), n) == StepN(s, n + 1)
  {
  }

  /** After `n` clicks from the initial state: the first click only leaves
      the first-click state, and from then on the direction alternates,
      ascending after every even number of clicks. */
  lemma {:induction false} UnclickedAfter(n: nat)
    ensures StepN(Unclicked, n) == HeaderState(n == 0, n > 0 && n % 2 == 0)
  {
    if n > 0 {
      StepsAfterFirst(n - 1);
    }
  }

  lemma {:induction false} StepsAfterFirst(m: nat)
    ensures StepN(HeaderState(false, false), m) == HeaderState(false, m % 2 == 1)
  {
    if m > 0 {
      StepsAfterFirst(m - 1);
      StepNShift(HeaderState(false, false), m - 1);
      StepNLast(HeaderState(false, false), m - 1);
    }
  }

  lemma {:induction false} StepNLast(s: HeaderState, n: nat)
    ensures StepN(s, n + 1) == Step(StepN(s, n))
    decreases n
  {
    if n > 0 {
      StepNLast(Step(s), n - 1);
    }
  }
}
