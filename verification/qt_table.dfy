/** The part of Qt's QTableWidget the service table uses: a list of rows
    (text items in columns 0-2, push buttons in columns 3-4), a hidden flag per
    row, `setRowCount`, `setItem`/`setCellWidget`, `setRowHidden` and
    `sortItems`. */
module QtTable {

  /** A checkable QPushButton together with the slot its `clicked` signal is
      connected to: `toggle_service(checked, service, enableVerb, disableVerb)`,
      where `service` is the name the lambda captured when the row was filled. */
  datatype Button = Button(caption: string, checked: bool, service: string, enableVerb: string, disableVerb: string)

  /** One table row: the Service, Description and Status items and the
      Start/Stop and Enable/Disable buttons; a row that `setRowCount` added
      holds nothing until it is filled. */
  datatype Row =
    | Blank
    | Filled(name: string, description: string, status: string, startStop: Button, enableDisable: Button)

  /** The button a filled row holds in `column`: Start/Stop in column 3,
      Enable/Disable in column 4. */
  function ButtonAt(r: Row, column: int): (b: Button)
    requires r.Filled? && (column == 3 || column == 4)
  {
    if column == 3 then r.startStop else r.enableDisable
  }

  /** A checkable button after a click: its check state flips, while its
      caption and its connected slot stay as they were. */
  function Toggled(b: Button): (t: Button) {
    b.(checked := !b.checked)
  }

  /** The rows after a click on the button in `column` of row `row`. */
  function PressedRows(rows: seq<Row>, row: nat, column: int): (r: seq<Row>)
    requires row < |rows| && rows[row].Filled? && (column == 3 || column == 4)
    ensures |r| == |rows| && r[row].Filled?
    ensures forall i :: 0 <= i < |rows| && i != row ==> r[i] == rows[i]
    ensures ButtonAt(r[row], column) == Toggled(ButtonAt(rows[row], column))
    ensures ButtonAt(r[row], 7 - column) == ButtonAt(rows[row], 7 - column)
    ensures Text(r[row], 0) == Text(rows[row], 0) && Text(r[row], 1) == Text(rows[row], 1)
      && Text(r[row], 2) == Text(rows[row], 2)
  {
    var filled := rows[row];
    rows[row := if column == 3 then filled.(startStop := Toggled(filled.startStop))
                else filled.(enableDisable := Toggled(filled.enableDisable))]
  }

  /** Qt.AscendingOrder and Qt.DescendingOrder. */
  datatype SortOrder = AscendingOrder | DescendingOrder

  /** `s` cut or padded with `fill` to length n: what setRowCount does to the
      per-row state, keeping the rows that survive. */
  function Resize<T>(s: seq<T>, n: nat, fill: T): (r: seq<T>)
    ensures |r| == n
    ensures forall i :: 0 <= i < n ==> r[i] == if i < |s| then s[i] else fill
  {
    if n <= |s| then s[..n] else s + seq(n - |s|, _ => fill)
  }

  /** Whether row `r` holds a text item in `column` (only filled rows do, and
      only in columns 0-2; the button columns hold widgets, not items). */
  predicate HasItem(r: Row, column: int) {
    r.Filled? && 0 <= column <= 2
  }

  /** The text of the item in `column`. */
  function Text(r: Row, column: int): string
    requires HasItem(r, column)
  {
    if column == 0 then r.name else if column == 1 then r.description else r.status
  }

  /** Strict lexicographic order on strings by character code. */
  predicate Less(a: string, b: string) {
    |b| > 0 && (|a| == 0 || a[0] < b[0] || (a[0] == b[0] && Less(a[1..], b[1..])))
  }

  lemma {:induction false} LessIrreflexive(a: string)
    ensures !Less(a, a)
  {
    if |a| > 0 {
      LessIrreflexive(a[1..]);
    }
  }

  lemma {:induction false} LessTransitive(a: string, b: string, c: string)
    requires Less(a, b) && Less(b, c)
    ensures Less(a, c)
  {
    if |a| > 0 && a[0] == b[0] && b[0] == c[0] {
      LessTransitive(a[1..], b[1..], c[1..]);
    }
  }

  lemma {:induction false} LessTotal(a: string, b: string)
    ensures a == b || Less(a, b) || Less(b, a)
  {
    if |a| > 0 && |b| > 0 && a[0] == b[0] {
      LessTotal(a[1..], b[1..]);
      if a[1..] == b[1..] {
        assert a == [a[0]] + a[1..] && b == [b[0]] + b[1..];
      }
    }
  }

  /** One row and its hidden flag: what a sort moves together. */
  datatype Entry = Entry(row: Row, hidden: bool)

  /** Whether `a` must come strictly before `b` when sorting by `column` in `order`. */
  predicate Before(a: Entry, b: Entry, column: int, order: SortOrder)
    requires HasItem(a.row, column) && HasItem(b.row, column)
  {
    match order
    case AscendingOrder => Less(Text(a.row, column), Text(b.row, column))
    case DescendingOrder => Less(Text(b.row, column), Text(a.row, column))
  }

  lemma BeforeAsymmetric(a: Entry, b: Entry, column: int, order: SortOrder)
    requires HasItem(a.row, column) && HasItem(b.row, column)
    ensures Before(a, b, column, order) ==> !Before(b, a, column, order)
  {
    var x, y := Text(a.row, column), Text(b.row, column);
    if Less(x, y) && Less(y, x) {
      LessTransitive(x, y, x);
      LessIrreflexive(x);
    }
  }

  /** "Not after" is transitive. */
  lemma NotBeforeTransitive(a: Entry, b: Entry, c: Entry, column: int, order: SortOrder)
    requires HasItem(a.row, column) && HasItem(b.row, column) && HasItem(c.row, column)
    requires !Before(b, a, column, order) && !Before(c, b, column, order)
    ensures !Before(c, a, column, order)
  {
    var x, y, z := Text(a.row, column), Text(b.row, column), Text(c.row, column);
    LessTotal(x, y);
    if order.AscendingOrder? && Less(z, x) && x != y {
      LessTransitive(z, x, y);
    }
    if order.DescendingOrder? && Less(x, z) && x != y {
      LessTransitive(y, x, z);
    }
  }

  predicate AllHaveItem(s: seq<Entry>, column: int) {
    forall i :: 0 <= i < |s| ==> HasItem(s[i].row, column)
  }

  predicate NoneHasItem(s: seq<Entry>, column: int) {
    forall i :: 0 <= i < |s| ==> !HasItem(s[i].row, column)
  }

  /** No entry comes strictly before an entry placed ahead of it. */
  predicate Ordered(s: seq<Entry>, column: int, order: SortOrder)
    requires AllHaveItem(s, column)
  {
    forall i, j :: 0 <= i < j < |s| ==> !Before(s[j], s[i], column, order)
  }

  /** Inserts `e` after the entries that come strictly before it and ahead of
      all others, so entries with equal text keep their relative order. */
  function Insert(e: Entry, s: seq<Entry>, column: int, order: SortOrder): (r: seq<Entry>)
    requires HasItem(e.row, column) && AllHaveItem(s, column)
    ensures AllHaveItem(r, column)
    ensures multiset(r) == multiset(s) + multiset{e}
  {
    if |s| == 0 then [e]
    else if Before(s[0], e, column, order) then
      assert s == [s[0]] + s[1..];
      [s[0]] + Insert(e, s[1..], column, order)
    else [e] + s
  }

  /** Stable insertion sort of entries that all hold an item in `column`. */
  function SortByText(s: seq<Entry>, column: int, order: SortOrder): (r: seq<Entry>)
    requires AllHaveItem(s, column)
    ensures AllHaveItem(r, column)
    ensures multiset(r) == multiset(s)
  {
    if |s| == 0 then []
    else
      assert s == [s[0]] + s[1..];
      Insert(s[0], SortByText(s[1..], column, order), column, order)
  }

  /** The entries holding an item in `column`, in table order. */
  function WithItem(s: seq<Entry>, column: int): (r: seq<Entry>)
    ensures AllHaveItem(r, column)
  {
    if |s| == 0 then []
    else if HasItem(s[0].row, column) then [s[0]] + WithItem(s[1..], column)
    else WithItem(s[1..], column)
  }

  /** The entries holding no item in `column`, in table order. */
  function WithoutItem(s: seq<Entry>, column: int): (r: seq<Entry>)
    ensures NoneHasItem(r, column)
  {
    if |s| == 0 then []
    else if HasItem(s[0].row, column) then WithoutItem(s[1..], column)
    else [s[0]] + WithoutItem(s[1..], column)
  }

  /** `sortItems(column, order)`: rows with an item in the column are stably
      sorted by its text, and rows without one follow in their old order. */
  function SortEntries(s: seq<Entry>, column: int, order: SortOrder): (r: seq<Entry>) {
    SortByText(WithItem(s, column), column, order) + WithoutItem(s, column)
  }

  function Entries(rows: seq<Row>, hidden: seq<bool>): (s: seq<Entry>)
    requires |rows| == |hidden|
    ensures |s| == |rows|
    ensures forall i :: 0 <= i < |s| ==> s[i] == Entry(rows[i], hidden[i])
  {
    seq(|rows|, i requires 0 <= i < |rows| => Entry(rows[i], hidden[i]))
  }

  function RowsOf(s: seq<Entry>): (rows: seq<Row>)
    ensures |rows| == |s|
    ensures forall i :: 0 <= i < |s| ==> rows[i] == s[i].row
  {
    seq(|s|, i requires 0 <= i < |s| => s[i].row)
  }

  function FlagsOf(s: seq<Entry>): (flags: seq<bool>)
    ensures |flags| == |s|
    ensures forall i :: 0 <= i < |s| ==> flags[i] == s[i].hidden
  {
    seq(|s|, i requires 0 <= i < |s| => s[i].hidden)
  }

  /** The next order of a two-state toggle. */
  function Flip(order: SortOrder): (r: SortOrder)
    ensures r != order
  {
    if order == AscendingOrder then DescendingOrder else AscendingOrder
  }

  /** Flipping twice restores the order. */
  lemma FlipTwice(order: SortOrder)
    ensures Flip(Flip(order)) == order
  {
  }

  class Table {
    var rows: seq<Row>
    var hidden: seq<bool>

    /** Every row has its hidden flag. */
    predicate Valid()
      reads this
    {
      |hidden| == |rows|
    }

    /** Every row holds its items and buttons (no row is left blank). */
    predicate Complete()
      reads this
    {
      forall i :: 0 <= i < |rows| ==> rows[i].Filled?
    }

    /** An empty table. */
    constructor()
      ensures Valid() && Complete()
      ensures rows == [] && hidden == []
    {
      rows := [];
      hidden := [];
    }

    /** `setRowCount(n)`: rows beyond n are removed with their flags; new rows
        are blank and shown; surviving rows keep their content and flag. */
    method SetRowCount(n: nat)
      requires Valid()
      modifies this
      ensures Valid()
      ensures rows == Resize(old(rows), n, Blank)
      ensures hidden == Resize(old(hidden), n, false)
    {
      rows := Resize(rows, n, Blank);
      hidden := Resize(hidden, n, false);
    }

    /** The three `setItem` and two `setCellWidget` calls of one row. */
    method SetRow(row: nat, r: Row)
      requires Valid() && row < |rows|
      modifies this
      ensures Valid()
      ensures rows == old(rows)[row := r]
      ensures hidden == old(hidden)
    {
      rows := rows[row := r];
    }

    /** `setRowHidden(row, h)`. */
    method SetRowHidden(row: nat, h: bool)
      requires Valid() && row < |rows|
      modifies this
      ensures Valid()
      ensures rows == old(rows)
      ensures hidden == old(hidden)[row := h]
    {
      hidden := hidden[row := h];
    }

    /** A click on the checkable button in `column` of row `row`: Qt flips
        its check state and hands the new state to the `clicked` signal. */
    method PressButton(row: nat, column: int) returns (checked: bool)
      requires Valid() && row < |rows| && rows[row].Filled? && (column == 3 || column == 4)
      modifies this
      ensures Valid()
      ensures rows == PressedRows(old(rows), row, column) && hidden == old(hidden)
      ensures checked == !ButtonAt(old(rows)[row], column).checked
      ensures old(Complete()) ==> Complete()
    {
      rows := PressedRows(rows, row, column);
      checked := ButtonAt(rows[row], column).checked;
    }

    /** `sortItems(column, order)`: rows move together with their hidden flags. */
    method SortItems(column: int, order: SortOrder)
      requires Valid()
      modifies this
      ensures Valid()
      ensures Entries(rows, hidden) == SortEntries(Entries(old(rows), old(hidden)), column, order)
      ensures old(Complete()) ==> Complete()
    {
      var entries := Entries(rows, hidden);
      var sorted := SortEntries(entries, column, order);
      SortEntriesLength(entries, column, order);
      SortEntriesPermutes(entries, column, order);
      ghost var wasComplete := Complete();
      rows, hidden := RowsOf(sorted), FlagsOf(sorted);
      assert Entries(rows, hidden) == sorted;
      if wasComplete {
        forall j | 0 <= j < |rows|
          ensures rows[j].Filled?
        {
          assert sorted[j] in multiset(entries);
          var k :| 0 <= k < |entries| && entries[k] == sorted[j];
        }
      }
    }
  }

  lemma SortEntriesLength(s: seq<Entry>, column: int, order: SortOrder)
    ensures |SortEntries(s, column, order)| == |s|
  {
    SortEntriesPermutes(s, column, order);
    assert |multiset(SortEntries(s, column, order))| == |multiset(s)|;
  }

  lemma {:induction false} SplitByItem(s: seq<Entry>, column: int)
    ensures multiset(WithItem(s, column)) + multiset(WithoutItem(s, column)) == multiset(s)
  {
    if |s| > 0 {
      SplitByItem(s[1..], column);
      assert s == [s[0]] + s[1..];
    }
  }

  /** Sorting only rearranges: the same rows, each with its own hidden flag. */
  lemma SortEntriesPermutes(s: seq<Entry>, column: int, order: SortOrder)
    ensures multiset(SortEntries(s, column, order)) == multiset(s)
  {
    SplitByItem(s, column);
  }

  lemma {:induction false} InsertOrdered(e: Entry, s: seq<Entry>, column: int, order: SortOrder)
    requires HasItem(e.row, column) && AllHaveItem(s, column) && Ordered(s, column, order)
    ensures Ordered(Insert(e, s, column, order), column, order)
  {
    var r := Insert(e, s, column, order);
    if |s| == 0 {
    } else if Before(s[0], e, column, order) {
      InsertOrdered(e, s[1..], column, order);
      var t := Insert(e, s[1..], column, order);
      assert r == [s[0]] + t;
      assert forall j :: 0 < j < |r| ==> !Before(r[j], s[0], column, order) by {
        forall j | 0 < j < |r|
          ensures !Before(r[j], s[0], column, order)
        {
          assert r[j] in multiset(t);
          assert r[j] in multiset(s[1..]) + multiset{e};
          if r[j] == e {
            BeforeAsymmetric(s[0], e, column, order);
          } else {
            assert r[j] in s[1..];
            var k :| 0 <= k < |s[1..]| && s[1..][k] == r[j];
            assert s[k + 1] == r[j];
          }
        }
      }
    } else {
      assert r == [e] + s;
      forall j | 0 < j < |r|
        ensures !Before(r[j], e, column, order)
      {
        if j > 1 {
          NotBeforeTransitive(e, s[0], s[j - 1], column, order);
        }
      }
    }
  }

  lemma {:induction false} SortByTextOrdered(s: seq<Entry>, column: int, order: SortOrder)
    requires AllHaveItem(s, column)
    ensures Ordered(SortByText(s, column, order), column, order)
  {
    if |s| > 0 {
      SortByTextOrdered(s[1..], column, order);
      InsertOrdered(s[0], SortByText(s[1..], column, order), column, order);
    }
  }

  /** After sortItems on a column, the rows holding an item there come first,
      ordered by its text in the requested direction; the rest follow. */
  lemma SortEntriesOrdered(s: seq<Entry>, column: int, order: SortOrder)
    ensures var r := SortEntries(s, column, order); var k := |WithItem(s, column)|;
      && k <= |r|
      && AllHaveItem(r[..k], column) && Ordered(r[..k], column, order)
      && NoneHasItem(r[k..], column)
  {
    var sorted := SortByText(WithItem(s, column), column, order);
    SortByTextOrdered(WithItem(s, column), column, order);
    assert |sorted| == |WithItem(s, column)| by {
      assert |multiset(sorted)| == |multiset(WithItem(s, column))|;
    }
    var r := SortEntries(s, column, order);
    assert r[..|sorted|] == sorted;
    assert r[|sorted|..] == WithoutItem(s, column);
  }

  /** The entries whose text in `column` is `key`, in sequence order. */
  function WithText(s: seq<Entry>, column: int, key: string): (r: seq<Entry>)
    requires AllHaveItem(s, column)
    ensures forall i :: 0 <= i < |r| ==> HasItem(r[i].row, column) && Text(r[i].row, column) == key
  {
    if |s| == 0 then []
    else if Text(s[0].row, column) == key then [s[0]] + WithText(s[1..], column, key)
    else WithText(s[1..], column, key)
  }

  lemma {:induction false} InsertWithText(e: Entry, s: seq<Entry>, column: int, order: SortOrder, key: string)
    requires HasItem(e.row, column) && AllHaveItem(s, column)
    ensures WithText(Insert(e, s, column, order), column, key)
      == if Text(e.row, column) == key then [e] + WithText(s, column, key) else WithText(s, column, key)
  {
    var r := Insert(e, s, column, order);
    if |s| == 0 {
      assert r == [e];
      assert r[1..] == [];
    } else if Before(s[0], e, column, order) {
      var t := Insert(e, s[1..], column, order);
      assert r == [s[0]] + t && r[1..] == t;
      InsertWithText(e, s[1..], column, order, key);
      if Text(e.row, column) == key {
        LessIrreflexive(key);
        assert Text(s[0].row, column) != key;
      }
    } else {
      assert r == [e] + s && r[1..] == s;
    }
  }

  /** The sort is stable: the entries sharing any one text come out in the
      order they went in. */
  lemma {:induction false} SortByTextStable(s: seq<Entry>, column: int, order: SortOrder, key: string)
    requires AllHaveItem(s, column)
    ensures WithText(SortByText(s, column, order), column, key) == WithText(s, column, key)
  {
    if |s| > 0 {
      SortByTextStable(s[1..], column, order, key);
      InsertWithText(s[0], SortByText(s[1..], column, order), column, order, key);
    }
  }

  lemma {:induction false} WithoutItemAll(s: seq<Entry>, column: int)
    requires NoneHasItem(s, column)
    ensures WithItem(s, column) == [] && WithoutItem(s, column) == s
  {
    if |s| > 0 {
      WithoutItemAll(s[1..], column);
      assert s == [s[0]] + s[1..];
    }
  }

  /** Sorting by a button column (or any column without items) leaves the
      rows where they are. */
  lemma SortWidgetColumnKeepsOrder(s: seq<Entry>, column: int, order: SortOrder)
    requires column < 0 || column > 2
    ensures SortEntries(s, column, order) == s
  {
    WithoutItemAll(s, column);
  }
}
