/**
 * The sheet and row edits that insert, update, delete and fetch share in
 * both trees: where a row is written, how a deleted row leaves the sheet,
 * how identity and version values become cells and how a version is read
 * back.  The shape insert relies on, "the active rows are the first rows",
 * is stated here together with the proof that insert and delete keep it.
 */
module Bookkeeping {
  import opened Outcomes
  import opened Values
  import opened JavaNum
  import opened Cells
  import opened Mapping
  import opened RowAccounting

  /** The state a handler works on: the connection's workbook, its sheets by name. */
  class Workbook {
    var sheets: map<string, Sheet>

    constructor (sheets: map<string, Sheet>)
      ensures this.sheets == sheets
    {
      this.sheets := sheets;
    }
  }

  /** How a handler call ends and what it leaves: `spec`'s sheets, or the old ones with its fault. */
  predicate Applied(r: Outcome, after: map<string, Sheet>, before: map<string, Sheet>, spec: Result<map<string, Sheet>>)
  {
    match spec
    case Success(w) => r == Done && after == w
    case Failure(f) => r == Fail(f) && after == before
  }

  // ---- rows ------------------------------------------------------------------------

  /** `wb.getSheet(name)`, or the sheet `wb.createSheet(name)` makes when there is none. */
  function SheetOrNew(sheets: map<string, Sheet>, name: string): Sheet
  {
    if name in sheets then sheets[name] else []
  }

  /** `sheet.getRow(i)`, or the empty row `sheet.createRow(i)` makes when there is none. */
  function RowOrNew(s: Sheet, i: nat): (row: Row)
    ensures GetRow(s, i).Some? ==> row == GetRow(s, i).value
    ensures GetRow(s, i).None? ==> row == map[]
  {
    if i < |s| && s[i].Some? then s[i].value else map[]
  }

  /** The sheet with row `i` holding `row`; past the end the sheet grows with null rows. */
  function PutRow(s: Sheet, i: nat, row: Row): (r: Sheet)
    ensures |r| == if i < |s| then |s| else i + 1
    ensures r[i] == Some(row)
    ensures forall j :: 0 <= j < |r| && j != i ==> r[j] == GetRow(s, j)
  {
    if i < |s| then s[i := Some(row)] else s + seq(i - |s|, _ => None) + [Some(row)]
  }

  /** Every cell of row `i` removed one by one; the row itself stays. */
  function ClearRow(s: Sheet, i: nat): Sheet
    requires i < |s|
  {
    s[i := Some(map[])]
  }

  /**
   * `sheet.shiftRows(start, end, -1)`: each row in start..end moves up one,
   * replacing the row above it, and the row at `end` is left null.
   */
  function ShiftUp(s: Sheet, start: nat, end: nat): (r: Sheet)
    requires 1 <= start <= end < |s|
    ensures |r| == |s|
  {
    seq(|s|, j requires 0 <= j < |s| => if start - 1 <= j < end then s[j + 1] else if j == end then None else s[j])
  }

  /** `sheet.removeRow(row i)`, then a shift of the rows below it when there are any. */
  function RemoveRow(s: Sheet, i: nat): Sheet
    requires i < |s|
  {
    var removed := s[i := None];
    var last := LastRowNum(removed);
    if last > i then ShiftUp(removed, i + 1, last) else removed
  }

  /**
   * What removing a row from a list means: the rows before it stay, every
   * later row moves up by exactly one, and the sheet keeps its length with a
   * null row at the end.
   */
  lemma RemoveRowShiftsUp(s: Sheet, i: nat)
    requires i < |s|
    ensures RemoveRow(s, i) == s[..i] + s[i + 1..] + [None]
  {
    var removed := s[i := None];
    var last := LastRowNum(removed);
    var spec := s[..i] + s[i + 1..] + [None];
    assert |spec| == |s|;
    if last > i {
      var r := ShiftUp(removed, i + 1, last);
      forall j | 0 <= j < |s|
        ensures r[j] == spec[j]
      {
        if j < i {
          assert r[j] == removed[j] == s[j] == spec[j];
        } else if j < |s| - 1 {
          assert spec[j] == s[j + 1];
          if j < last {
            assert r[j] == removed[j + 1] == s[j + 1];
          } else {
            assert removed[j + 1].None? && s[j + 1].None?;
            assert r[j].None?;
          }
        } else {
          assert spec[j].None?;
          assert removed[j].None? || j == last;
        }
      }
    } else {
      forall j | 0 <= j < |s|
        ensures removed[j] == spec[j]
      {
        if i < j {
          assert removed[j].None?;
        }
        if i <= j < |s| - 1 {
          assert spec[j] == s[j + 1] && removed[j + 1].None?;
        }
      }
    }
  }

  /** Clearing the last row removes no row: the physical rows and the last row index stay. */
  lemma ClearRowKeepsRows(s: Sheet, i: nat)
    requires i < |s| && s[i].Some?
    ensures |ClearRow(s, i)| == |s|
    ensures LastRowNum(ClearRow(s, i)) == LastRowNum(s)
    ensures PhysicalRows(ClearRow(s, i)) == PhysicalRows(s)
    ensures ClearRow(s, i)[i] == Some(map[])
  {
    SamePresenceSameBounds(s, ClearRow(s, i));
  }

  /** Two sheets with rows present at the same indices have the same bounds and count. */
  lemma {:induction false} SamePresenceSameBounds(s: Sheet, t: Sheet)
    requires |s| == |t| && forall j :: 0 <= j < |s| ==> (s[j].Some? <==> t[j].Some?)
    ensures LastRowNum(s) == LastRowNum(t) && PhysicalRows(s) == PhysicalRows(t)
    decreases |s|
  {
    if |s| > 0 {
      SamePresenceSameBounds(s[..|s| - 1], t[..|t| - 1]);
    }
  }

  // ---- compact sheets ----------------------------------------------------------------

  /**
   * The active rows are exactly rows 0..n-1.  Insert writes at the
   * active-row count, which is the first free row only in a sheet of this
   * shape.
   */
  predicate PrefixActive(s: Sheet, cols: seq<int>, n: nat)
  {
    n <= |s| && forall i :: 0 <= i < |s| ==> (ActiveAt(s, i, cols) <==> i < n)
  }

  /** In a compact sheet the active-row count is the length of the active prefix. */
  lemma {:induction false} PrefixActiveCount(s: Sheet, cols: seq<int>, n: nat)
    requires PrefixActive(s, cols, n)
    ensures ActiveRows(s, cols) == n
    decreases |s|
  {
    if |s| > 0 {
      var k := |s| - 1;
      var init := s[..k];
      assert forall i :: 0 <= i < k ==> (ActiveAt(init, i, cols) <==> ActiveAt(s, i, cols));
      if n == |s| {
        PrefixActiveCount(init, cols, k);
      } else {
        PrefixActiveCount(init, cols, n);
      }
    }
  }

  /**
   * Writing an active row at the active-row count of a compact sheet keeps
   * it compact, one row longer: the new row is the next active one.
   */
  lemma InsertAtCountKeepsPrefix(s: Sheet, cols: seq<int>, n: nat, row: Row)
    requires PrefixActive(s, cols, n) && HasCells(row, cols)
    ensures PrefixActive(PutRow(s, n, row), cols, n + 1)
    ensures ActiveRows(PutRow(s, n, row), cols) == n + 1
  {
    var r := PutRow(s, n, row);
    forall i | 0 <= i < |r|
      ensures ActiveAt(r, i, cols) <==> i < n + 1
    {
      if i != n && i < |s| {
        assert r[i] == s[i];
        assert ActiveAt(r, i, cols) <==> ActiveAt(s, i, cols);
      }
    }
    PrefixActiveCount(r, cols, n + 1);
  }

  /** Removing an active row of a compact sheet keeps it compact, one row shorter. */
  lemma RemoveKeepsPrefix(s: Sheet, cols: seq<int>, n: nat, i: nat)
    requires PrefixActive(s, cols, n) && i < n
    ensures PrefixActive(RemoveRow(s, i), cols, n - 1)
    ensures ActiveRows(RemoveRow(s, i), cols) == n - 1
  {
    RemoveRowShiftsUp(s, i);
    var r := RemoveRow(s, i);
    forall j | 0 <= j < |r|
      ensures ActiveAt(r, j, cols) <==> j < n - 1
    {
      if j < i {
        assert r[j] == s[j];
        assert ActiveAt(r, j, cols) <==> ActiveAt(s, j, cols);
      } else if j < |s| - 1 {
        assert r[j] == s[j + 1];
        assert ActiveAt(r, j, cols) <==> ActiveAt(s, j + 1, cols);
      }
    }
    PrefixActiveCount(r, cols, n - 1);
  }

  /**
   * Clearing the last row of a compact sheet, when that row is active and
   * some column identifies a row, leaves a tombstone at the end of the
   * active prefix: the sheet stays compact with one active row fewer.
   */
  lemma ClearLastKeepsPrefix(s: Sheet, cols: seq<int>, n: nat, i: nat)
    requires PrefixActive(s, cols, n) && i < n && i == LastRowNum(s) && |cols| > 0
    ensures i == n - 1
    ensures PrefixActive(ClearRow(s, i), cols, n - 1)
    ensures ActiveRows(ClearRow(s, i), cols) == n - 1
  {
    assert ActiveAt(s, n - 1, cols);
    assert s[n - 1].Some?;
    var r := ClearRow(s, i);
    assert !HasCells(map[], cols) by {
      assert GetCell(map[], cols[0]).None?;
    }
    forall j | 0 <= j < |r|
      ensures ActiveAt(r, j, cols) <==> j < n - 1
    {
      if j != i {
        assert r[j] == s[j];
        assert ActiveAt(r, j, cols) <==> ActiveAt(s, j, cols);
      }
    }
    PrefixActiveCount(r, cols, n - 1);
  }

  // ---- row searches after an edit -----------------------------------------------------

  /**
   * After row `i` is written with a matching row, a search that found
   * nothing before finds row `i`: no other row changed.
   */
  lemma {:induction false} FoundAfterPut(s: Sheet, i: nat, row: Row, crit: seq<Criterion>)
    requires FirstMatch(s, crit) == -1 && RowMatches(row, crit)
    ensures FirstMatch(PutRow(s, i, row), crit) == i
  {
    var r := PutRow(s, i, row);
    assert MatchAt(r, i, crit);
    forall j | 0 <= j < |r| && j != i
      ensures !MatchAt(r, j, crit)
    {
      if j < |s| {
        assert r[j] == s[j];
        assert !MatchAt(s, j, crit);
      } else {
        assert r[j].None?;
      }
    }
  }

  /**
   * A row search whose only match was row `i`, with a criterion that needs a
   * cell, finds nothing once row `i` is removed or cleared.
   */
  lemma LostAfterDelete(s: Sheet, i: nat, crit: seq<Criterion>)
    requires i < |s| && |crit| > 0
    requires forall j :: 0 <= j < |s| && j != i ==> !MatchAt(s, j, crit)
    ensures FirstMatch(RemoveRow(s, i), crit) == -1
    ensures FirstMatch(ClearRow(s, i), crit) == -1
  {
    RemoveRowShiftsUp(s, i);
    var r := RemoveRow(s, i);
    forall j | 0 <= j < |r|
      ensures !MatchAt(r, j, crit)
    {
      if j < i {
        assert r[j] == s[j];
        assert !MatchAt(s, j, crit);
      } else if j < |s| - 1 {
        assert r[j] == s[j + 1];
        assert !MatchAt(s, j + 1, crit);
      }
    }
    var c := ClearRow(s, i);
    assert !RowMatches(map[], crit) by {
      AbsentCellNeverMatches(crit[0].jtype, crit[0].value);
    }
    forall j | 0 <= j < |c|
      ensures !MatchAt(c, j, crit)
    {
      if j != i {
        assert c[j] == s[j];
        assert !MatchAt(s, j, crit);
      } else {
        assert c[j] == Some(map[]);
      }
    }
  }

  // ---- identity and version cells --------------------------------------------------------

  /**
   * The datastore identity key as a cell: a `String` as text, a `Long` as a
   * number.  The cast of any other key fails, as unboxing `null` does.
   */
  function IdCell(key: Value): (r: Result<Cell>)
    ensures key.VStr? ==> r == Success(Str(key.s))
    ensures key.VNum? ==> r == Success(Num(key.n))
    ensures !key.VStr? && !key.VNum? ==> r.Failure?
  {
    match key
    case VStr(s) => Success(Str(s))
    case VNum(n) => Success(Num(n))
    case VNull => Failure(NullValue)
    case _ => Failure(ClassCast)
  }

  /**
   * The identity cell is the one a datastore-identity search matches: a
   * string key reads back as its text, a long key as its number.
   */
  lemma IdCellMatches(key: Value)
    requires IdCell(key).Success? && (key.VNum? ==> InLong(key.n))
    ensures CellMatches(Some(IdCell(key).value), KeyType(key), key)
  {
  }

  /** A version value as a cell: a `Long` as a number, a `Timestamp` as a date, anything else not written. */
  function VersionCell(v: Value): (c: Option<Cell>)
    ensures v.VNum? ==> c == Some(Num(v.n))
    ensures v.VDate? ==> c == Some(Date(v.millis))
    ensures c.None? <==> !v.VNum? && !v.VDate?
  {
    match v
    case VNum(n) => Some(Num(n))
    case VDate(ms) => Some(Date(ms))
    case _ => None
  }

  /**
   * `row.getCell(col)`, else `row.createCell(col)`, then the value set: the
   * cell exists afterwards even when nothing is written to it.  A negative
   * column is refused by `createCell`.
   */
  function CreateAndSet(row: Row, col: int, c: Option<Cell>): (r: Result<Row>)
    ensures col < 0 <==> r == Failure(InvalidColumnIndex(col))
    ensures r.Success? ==> col as nat in r.value
    ensures r.Success? && c.Some? ==> r.value[col as nat] == c.value
    ensures r.Success? && c.None? ==> r.value[col as nat] == if col as nat in row then row[col as nat] else Blank
    ensures r.Success? ==> forall k :: k in row && k != col ==> k in r.value && r.value[k] == row[k]
    ensures r.Success? ==> forall k :: k in r.value ==> k in row || k == col
  {
    if col < 0 then Failure(InvalidColumnIndex(col))
    else
      var cell := if c.Some? then c.value else if col as nat in row then row[col as nat] else Blank;
      Success(row[col as nat := cell])
  }

  /**
   * `row.getCell(col)` and the value set, with no cell created: a missing
   * cell is a `NullPointerException` once there is a value to write.
   */
  function SetExisting(row: Row, col: int, c: Option<Cell>): (r: Result<Row>)
    ensures c.None? ==> r == Success(row)
    ensures c.Some? && GetCell(row, col).None? ==> r == Failure(NullCell)
    ensures c.Some? && GetCell(row, col).Some? ==> r == Success(row[col as nat := c.value])
  {
    if c.None? then Success(row)
    else if GetCell(row, col).None? then Failure(NullCell)
    else Success(row[col as nat := c.value])
  }

  /**
   * The version read back on fetch: `(long) getNumericCellValue()` for a
   * version number, `getDateCellValue()` for a date-time version, nothing
   * for another strategy.  A missing cell is dereferenced; a blank one
   * reads 0 or a `null` date.
   */
  function VersionRead(strategy: VersionStrategy, row: Row, col: int): (r: Result<Option<Value>>)
    ensures strategy.OtherStrategy? ==> r == Success(None)
    ensures !strategy.OtherStrategy? && GetCell(row, col).None? ==> r == Failure(NullCell)
    ensures strategy.VersionNumber? && r.Success? ==> r.value.Some? && r.value.value.VNum? && InLong(r.value.value.n)
  {
    if strategy.OtherStrategy? then Success(None)
    else if GetCell(row, col).None? then Failure(NullCell)
    else
      var c := GetCell(row, col).value;
      match strategy
      case VersionNumber =>
        (match NumberOf(c)
         case Some(n) => Success(Some(VNum(Int64(n))))
         case None => Failure(WrongCellKind))
      case DateTime =>
        (match DateOf(c)
         case Some(Some(ms)) => Success(Some(VDate(ms)))
         case Some(None) => Success(Some(VNull))
         case None => Failure(WrongCellKind))
  }

  /** The strategy's own kind of version: a long for a version number, a timestamp for a date-time. */
  predicate VersionOfStrategy(strategy: VersionStrategy, v: Value)
  {
    match strategy
    case VersionNumber => v.VNum? && InLong(v.n)
    case DateTime => v.VDate?
    case OtherStrategy => false
  }

  /** A version written into its cell, by insert or by update, is the version fetch reads back. */
  lemma VersionRoundTrip(strategy: VersionStrategy, row: Row, col: nat, v: Value)
    requires VersionOfStrategy(strategy, v)
    ensures CreateAndSet(row, col, VersionCell(v)).Success?
    ensures VersionRead(strategy, CreateAndSet(row, col, VersionCell(v)).value, col) == Success(Some(v))
    ensures col in row ==> VersionRead(strategy, SetExisting(row, col, VersionCell(v)).value, col) == Success(Some(v))
  {
  }

  /** A cell holding a version of the strategy's kind reads back as that version. */
  lemma VersionOfCell(strategy: VersionStrategy, row: Row, col: nat, v: Value)
    requires VersionOfStrategy(strategy, v) && col in row && VersionCell(v).Some? && row[col] == VersionCell(v).value
    ensures VersionRead(strategy, row, col) == Success(Some(v))
  {
  }

  // ---- the version on update -------------------------------------------------------------

  /** The field list extended with the version field when it is not already there. */
  function WithVersionField(fields: seq<nat>, f: nat): (r: seq<nat>)
    ensures f in r
    ensures |r| == |fields| + (if f in fields then 0 else 1)
    ensures r[..|fields|] == fields
    ensures forall x :: x in r <==> x in fields || x == f
  {
    if f in fields then fields else fields + [f]
  }

  /** The `updatingVerField` loop and the `System.arraycopy` into a list one longer. */
  method AppendVersionField(fields: seq<nat>, f: nat) returns (r: seq<nat>)
    ensures r == WithVersionField(fields, f)
  {
    var updatingVerField := false;
    for i := 0 to |fields|
      invariant updatingVerField <==> f in fields[..i]
    {
      assert fields[..i + 1] == fields[..i] + [fields[i]];
      if fields[i] == f {
        updatingVerField := true;
      }
    }
    assert fields[..|fields|] == fields;
    if updatingVerField {
      return fields;
    }
    var updated := new nat[|fields| + 1];
    for i := 0 to |fields|
      invariant forall j :: 0 <= j < i ==> updated[j] == fields[j]
    {
      updated[i] := fields[i];
    }
    updated[|fields|] := f;
    r := updated[..];
    assert r == fields + [f];
  }

  /** `op.replaceField(p, v)`: the object with field `p` set. */
  function WithField(obj: ObjState, p: nat, v: Value): (o: ObjState)
    ensures o.Provide(p) == v
    ensures forall q: nat :: q != p ==> o.Provide(q) == obj.Provide(q)
    ensures o.originals == obj.originals && o.datastoreKey == obj.datastoreKey && o.txVersion == obj.txVersion
  {
    var fields := if p < |obj.fields| then obj.fields[p := v] else obj.fields + seq(p - |obj.fields|, _ => VNull) + [v];
    obj.(fields := fields)
  }

  /**
   * What update does with the next version before any field is written.  A
   * version field gets the version (narrowed by `intValue()` when it is an
   * `int`) and joins the stored fields; the value for the version cell is
   * the next version itself, except that the narrowed `Integer` is neither
   * a `Long` nor a `Timestamp` and so writes no cell.
   */
  function VersionedUpdate(vm: VersionMeta, obj: ObjState, fields: seq<nat>, next: Value): (r: Result<(ObjState, seq<nat>, Option<Cell>)>)
    ensures vm.field.None? ==> r == Success((obj, fields, VersionCell(next)))
    ensures vm.field.Some? && vm.fieldIsInt && next.VNum? ==>
              r == Success((WithField(obj, vm.field.value, VNum(IntValue(next.n))), WithVersionField(fields, vm.field.value), None))
    ensures vm.field.Some? && !vm.fieldIsInt ==>
              r == Success((WithField(obj, vm.field.value, next), WithVersionField(fields, vm.field.value), VersionCell(next)))
    ensures r.Failure? <==> vm.field.Some? && vm.fieldIsInt && !next.VNum?
  {
    match vm.field
    case None => Success((obj, fields, VersionCell(next)))
    case Some(f) =>
      if vm.fieldIsInt then
        match next
        case VNum(n) => Success((WithField(obj, f, VNum(IntValue(n))), WithVersionField(fields, f), None))
        case VNull => Failure(NullValue)
        case _ => Failure(ClassCast)
      else Success((WithField(obj, f, next), WithVersionField(fields, f), VersionCell(next)))
  }

  /** The cell-removal loop of a delete that keeps the row: every cell goes. */
  method RemoveAllCells(row: Row) returns (r: Row)
    ensures r == map[]
  {
    r := row;
    while r.Keys != {}
      decreases |r.Keys|
    {
      var c :| c in r.Keys;
      r := r - {c};
    }
    assert forall k :: k !in r;
  }
}
