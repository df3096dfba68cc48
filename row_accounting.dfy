/**
 * Active rows.  POI of the era could not delete a row, so a deleted object
 * may leave its row behind with no cells: a tombstone.  A row is active when
 * the cells that identify an object are present.
 */
module RowAccounting {
  import opened Outcomes
  import opened Cells

  /** Every column in `cols` has a cell in the row. */
  predicate HasCells(row: Row, cols: seq<int>)
  {
    forall k :: 0 <= k < |cols| ==> GetCell(row, cols[k]).Some?
  }

  /** Row `i` exists and has all the identifying cells. */
  predicate ActiveAt(s: Sheet, i: nat, cols: seq<int>)
    requires i < |s|
  {
    s[i].Some? && HasCells(s[i].value, cols)
  }

  /** The number of active rows. */
  function ActiveRows(s: Sheet, cols: seq<int>): (n: nat)
    ensures n <= |s|
  {
    if |s| == 0 then 0
    else ActiveRows(s[..|s| - 1], cols) + (if ActiveAt(s, |s| - 1, cols) then 1 else 0)
  }

  /** The indices of the active rows. */
  function ActiveSet(s: Sheet, cols: seq<int>): set<nat>
  {
    set i: nat | i < |s| && ActiveAt(s, i, cols)
  }

  /** The count is exactly the number of distinct active rows: each counts once. */
  lemma {:induction false} ActiveRowsIsCardinality(s: Sheet, cols: seq<int>)
    ensures ActiveRows(s, cols) == |ActiveSet(s, cols)|
  {
    if |s| > 0 {
      var n := |s| - 1;
      var init := s[..n];
      ActiveRowsIsCardinality(init, cols);
      assert forall i: nat :: i < n ==> (ActiveAt(s, i, cols) <==> ActiveAt(init, i, cols));
      if ActiveAt(s, n, cols) {
        assert ActiveSet(s, cols) == ActiveSet(init, cols) + {n};
      } else {
        assert ActiveSet(s, cols) == ActiveSet(init, cols);
      }
    }
  }

  /** Counting splits over a concatenation of sheets. */
  lemma {:induction false} ActiveRowsAppend(s: Sheet, t: Sheet, cols: seq<int>)
    ensures ActiveRows(s + t, cols) == ActiveRows(s, cols) + ActiveRows(t, cols)
    decreases |t|
  {
    if |t| == 0 {
      assert s + t == s;
    } else {
      var n := |t| - 1;
      assert (s + t)[..|s + t| - 1] == s + t[..n];
      ActiveRowsAppend(s, t[..n], cols);
    }
  }

  lemma ActiveRowsSingle(r: Option<Row>, cols: seq<int>)
    ensures ActiveRows([r], cols) == if r.Some? && HasCells(r.value, cols) then 1 else 0
  {
    assert [r][..0] == [];
  }

  /** How many of the columns have a cell in the row, a repeated column counting each time. */
  function PresentCells(row: Row, cols: seq<int>): (n: nat)
    ensures n <= |cols|
  {
    if |cols| == 0 then 0
    else PresentCells(row, cols[..|cols| - 1]) + (if GetCell(row, cols[|cols| - 1]).Some? then 1 else 0)
  }

  /** The sum over the present rows of their present identifying cells. */
  function PresentCellTotal(s: Sheet, cols: seq<int>): nat
  {
    if |s| == 0 then 0
    else PresentCellTotal(s[..|s| - 1], cols) + (if s[|s| - 1].Some? then PresentCells(s[|s| - 1].value, cols) else 0)
  }

  /** A row with every identifying cell has all of them counted. */
  lemma {:induction false} PresentCellsOfFullRow(row: Row, cols: seq<int>)
    requires HasCells(row, cols)
    ensures PresentCells(row, cols) == |cols|
  {
    if |cols| > 0 {
      PresentCellsOfFullRow(row, cols[..|cols| - 1]);
    }
  }

  /**
   * Counting cells rather than rows: each active row contributes one per
   * identifying column, and no present row contributes more than that.
   */
  lemma {:induction false} PresentCellTotalBounds(s: Sheet, cols: seq<int>)
    ensures |cols| * ActiveRows(s, cols) <= PresentCellTotal(s, cols) <= |cols| * PhysicalRows(s)
  {
    if |s| > 0 {
      var n, k := |s| - 1, |cols|;
      PresentCellTotalBounds(s[..n], cols);
      var a, p := ActiveRows(s[..n], cols), PhysicalRows(s[..n]);
      var da := if ActiveAt(s, n, cols) then 1 else 0;
      var dp := if s[n].Some? then 1 else 0;
      var dc := if s[n].Some? then PresentCells(s[n].value, cols) else 0;
      assert ActiveRows(s, cols) == a + da;
      assert PhysicalRows(s) == p + dp;
      assert PresentCellTotal(s, cols) == PresentCellTotal(s[..n], cols) + dc;
      if ActiveAt(s, n, cols) {
        PresentCellsOfFullRow(s[n].value, cols);
      }
      assert k * da <= dc <= k * dp;
      Distribute(k, a, da);
      Distribute(k, p, dp);
    }
  }

  lemma Distribute(k: int, a: int, b: int)
    ensures k * (a + b) == k * a + k * b
  {
  }

  /** When every present row is active, each counts exactly once per identifying column. */
  lemma {:induction false} PresentCellTotalOfActiveRows(s: Sheet, cols: seq<int>)
    requires forall i :: 0 <= i < |s| && s[i].Some? ==> HasCells(s[i].value, cols)
    ensures PresentCellTotal(s, cols) == |cols| * ActiveRows(s, cols)
  {
    if |s| > 0 {
      var n, k := |s| - 1, |cols|;
      PresentCellTotalOfActiveRows(s[..n], cols);
      var a := ActiveRows(s[..n], cols);
      var da := if ActiveAt(s, n, cols) then 1 else 0;
      if s[n].Some? {
        PresentCellsOfFullRow(s[n].value, cols);
      }
      Distribute(k, a, da);
    }
  }

  /** With a single identifying column, counting cells and counting rows agree. */
  lemma {:induction false} PresentCellTotalSingleColumn(s: Sheet, c: int)
    ensures PresentCellTotal(s, [c]) == ActiveRows(s, [c])
  {
    if |s| > 0 {
      var n := |s| - 1;
      PresentCellTotalSingleColumn(s[..n], c);
      assert [c][..0] == [];
    }
  }

  /** Counting cells splits over a concatenation of sheets. */
  lemma {:induction false} PresentCellTotalAppend(s: Sheet, t: Sheet, cols: seq<int>)
    ensures PresentCellTotal(s + t, cols) == PresentCellTotal(s, cols) + PresentCellTotal(t, cols)
    decreases |t|
  {
    if |t| == 0 {
      assert s + t == s;
    } else {
      var n := |t| - 1;
      assert (s + t)[..|s + t| - 1] == s + t[..n];
      PresentCellTotalAppend(s, t[..n], cols);
    }
  }

  /** A sheet without rows has no cells to count. */
  lemma {:induction false} PresentCellTotalOfNoRows(s: Sheet, cols: seq<int>)
    requires PhysicalRows(s) == 0
    ensures PresentCellTotal(s, cols) == 0
  {
    PresentCellTotalBounds(s, cols);
  }

  /** A present row in first..last that is missing: the counting loops dereference it. */
  predicate NullRowWithin(s: Sheet)
  {
    exists i :: FirstRowNum(s) <= i <= LastRowNum(s) && s[i].None?
  }
}
