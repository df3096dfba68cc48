/**
 * Row location and row counting of the current tree
 * (`ExcelUtils` in `src/main/java`).
 */
module ExcelUtils {
  import opened Outcomes
  import opened Values
  import opened Cells
  import opened Mapping
  import opened RowAccounting

  /** `getSheetForClass`: the class's sheet, or a datastore error when the workbook has none. */
  function SheetForClass(sheets: map<string, Sheet>, cls: ClassMeta): (r: Result<Sheet>)
    ensures r.Success? <==> cls.table in sheets
    ensures r.Success? ==> r.value == sheets[cls.table]
    ensures r.Failure? ==> r.fault == SheetNotFound(cls.table)
  {
    if cls.table in sheets then Success(sheets[cls.table]) else Failure(SheetNotFound(cls.table))
  }

  // ---- the comparisons a search makes -------------------------------------

  /**
   * The comparison for a value stored through `conv`: the value is converted
   * and compared as the converter's datastore class.  A multi-column
   * converter's datastore class is an array class, which `cellMatches` never
   * accepts.
   */
  function Converted(column: nat, jtype: JType, conv: Option<Converter>, v: Value): (c: Criterion)
    ensures c.column == column
    ensures conv.None? ==> c == Criterion(column, jtype, v)
    ensures conv.Some? && conv.value.Single? ==>
              c == Criterion(column, conv.value.datastoreType, conv.value.conv.toDatastore(v))
    ensures conv.Some? && conv.value.Multi? ==> c.jtype == TOther
  {
    match conv
    case None => Criterion(column, jtype, v)
    case Some(Single(dt, cv)) => Criterion(column, dt, cv.toDatastore(v))
    case Some(Multi(_, _, _)) => Criterion(column, TOther, VNull)
  }

  /** The comparisons for the members of an embedded value, its first `n` members. */
  function EmbeddedCriteria(ecs: seq<EmbeddedColumn>, v: Value, useConverters: bool, n: nat): (r: seq<Criterion>)
    requires n <= |ecs|
    ensures |r| == n
  {
    if n == 0 then []
    else
      var e := ecs[n - 1];
      EmbeddedCriteria(ecs, v, useConverters, n - 1) +
        [if useConverters then Converted(e.column, e.jtype, e.converter, EmbeddedField(v, n - 1))
         else Criterion(e.column, e.jtype, EmbeddedField(v, n - 1))]
  }

  /** The comparisons one key member contributes. */
  function KeyMemberCriteria(m: Member, v: Value): seq<Criterion>
    requires |m.columns| > 0
  {
    if m.relation.SingleValued? && m.embedded then EmbeddedCriteria(m.embeddedColumns, v, true, |m.embeddedColumns|)
    else [Converted(m.Column0(), m.jtype, m.converter, v)]
  }

  /** The comparisons for the first `n` key members of an application-identity object. */
  function KeyCriteria(cls: ClassMeta, obj: ObjState, n: nat): seq<Criterion>
    requires cls.Valid() && n <= |cls.pkPositions|
  {
    if n == 0 then []
    else
      var p := cls.pkPositions[n - 1];
      KeyCriteria(cls, obj, n - 1) + KeyMemberCriteria(cls.members[p], obj.Provide(p))
  }

  /** The value a nondurable search compares a member with. */
  function NondurableValue(obj: ObjState, p: nat, originalValue: bool): (v: Value)
    ensures originalValue && p in obj.originals && obj.originals[p] != VNull ==> v == obj.originals[p]
    ensures !(originalValue && p in obj.originals && obj.originals[p] != VNull) ==> v == obj.Provide(p)
  {
    if originalValue && p in obj.originals && obj.originals[p] != VNull then obj.originals[p] else obj.Provide(p)
  }

  /**
   * The comparisons one member contributes to a nondurable search: none for
   * a relation that is not embedded.  A mapped member always has a column
   * (`ClassMeta.Valid`); the guard only keeps the function total.
   */
  function NondurableMemberCriteria(m: Member, v: Value): seq<Criterion>
  {
    if m.relation.SingleValued? && m.embedded then EmbeddedCriteria(m.embeddedColumns, v, false, |m.embeddedColumns|)
    else if m.relation.NoRelation? && |m.columns| > 0 then [Criterion(m.Column0(), m.jtype, v)]
    else []
  }

  /** The comparisons for the first `n` members of a nondurable object. */
  function NondurableCriteria(cls: ClassMeta, obj: ObjState, originalValue: bool, n: nat): seq<Criterion>
    requires n <= |cls.members|
  {
    if n == 0 then []
    else
      NondurableCriteria(cls, obj, originalValue, n - 1) +
        NondurableMemberCriteria(cls.members[n - 1], NondurableValue(obj, n - 1, originalValue))
  }

  /** The comparisons that identify the object's row, by identity kind. */
  function Criteria(cls: ClassMeta, obj: ObjState, originalValue: bool): seq<Criterion>
    requires cls.Valid()
  {
    match cls.identity
    case Application => KeyCriteria(cls, obj, |cls.pkPositions|)
    case Datastore => [Criterion(cls.datastoreIdColumn, KeyType(obj.datastoreKey), obj.datastoreKey)]
    case Nondurable => NondurableCriteria(cls, obj, originalValue, |cls.members|)
  }

  /**
   * `getRowNumberForObjectInWorkbook`: the lowest row index at which every
   * comparison holds, or -1 when the sheet is missing or no row matches.
   */
  function RowNumber(sheets: map<string, Sheet>, cls: ClassMeta, obj: ObjState, originalValue: bool): (r: int)
    requires cls.Valid()
    ensures r == -1 || (cls.table in sheets && 0 <= r < |sheets[cls.table]|)
    ensures r >= 0 ==> MatchAt(sheets[cls.table], r, Criteria(cls, obj, originalValue))
    ensures r == -1 && cls.table in sheets ==>
              forall j :: 0 <= j < |sheets[cls.table]| ==> !MatchAt(sheets[cls.table], j, Criteria(cls, obj, originalValue))
    ensures r >= 0 ==> forall j :: 0 <= j < r ==> !MatchAt(sheets[cls.table], j, Criteria(cls, obj, originalValue))
  {
    if cls.table in sheets then FirstMatch(sheets[cls.table], Criteria(cls, obj, originalValue)) else -1
  }

  // ---- the loops -----------------------------------------------------------

  /** The comparisons of an embedded value, collected in a loop. */
  method CollectEmbedded(ecs: seq<EmbeddedColumn>, v: Value, useConverters: bool) returns (crit: seq<Criterion>)
    ensures crit == EmbeddedCriteria(ecs, v, useConverters, |ecs|)
  {
    crit := [];
    var j := 0;
    while j < |ecs|
      invariant j <= |ecs|
      invariant crit == EmbeddedCriteria(ecs, v, useConverters, j)
    {
      var e := ecs[j];
      if useConverters {
        crit := crit + [Converted(e.column, e.jtype, e.converter, EmbeddedField(v, j))];
      } else {
        crit := crit + [Criterion(e.column, e.jtype, EmbeddedField(v, j))];
      }
      j := j + 1;
    }
  }

  /** The comparisons of one key member. */
  method CollectKeyMember(m: Member, v: Value) returns (crit: seq<Criterion>)
    requires |m.columns| > 0
    ensures crit == KeyMemberCriteria(m, v)
  {
    if m.relation.SingleValued? && m.embedded {
      crit := CollectEmbedded(m.embeddedColumns, v, true);
    } else {
      crit := [Converted(m.Column0(), m.jtype, m.converter, v)];
    }
  }

  /** The key comparisons, collected in a loop over the key members. */
  method CollectKeyCriteria(cls: ClassMeta, obj: ObjState) returns (crit: seq<Criterion>)
    requires cls.Valid()
    ensures crit == KeyCriteria(cls, obj, |cls.pkPositions|)
  {
    crit := [];
    for i := 0 to |cls.pkPositions|
      invariant crit == KeyCriteria(cls, obj, i)
    {
      crit := CollectKeyStep(cls, obj, i, crit);
    }
  }

  /** One pass of the key loop: the comparisons of the `i`-th key member appended. */
  method CollectKeyStep(cls: ClassMeta, obj: ObjState, i: nat, crit: seq<Criterion>) returns (next: seq<Criterion>)
    requires cls.Valid() && i < |cls.pkPositions| && crit == KeyCriteria(cls, obj, i)
    ensures next == KeyCriteria(cls, obj, i + 1)
  {
    var p := cls.pkPositions[i];
    var more := CollectKeyMember(cls.members[p], obj.Provide(p));
    next := crit + more;
  }

  /** The nondurable comparisons, collected in a loop over all members. */
  method CollectNondurableCriteria(cls: ClassMeta, obj: ObjState, originalValue: bool) returns (crit: seq<Criterion>)
    ensures crit == NondurableCriteria(cls, obj, originalValue, |cls.members|)
  {
    crit := [];
    for i := 0 to |cls.members|
      invariant NondurableCriteria(cls, obj, originalValue, i) == crit
    {
      crit := CollectNondurableStep(cls, obj, originalValue, i, crit);
    }
  }

  /** One pass of the member loop: the comparisons of the `i`-th member appended. */
  method CollectNondurableStep(cls: ClassMeta, obj: ObjState, originalValue: bool, i: nat, crit: seq<Criterion>)
      returns (next: seq<Criterion>)
    requires i < |cls.members|
    requires crit == NondurableCriteria(cls, obj, originalValue, i)
    ensures next == NondurableCriteria(cls, obj, originalValue, i + 1)
  {
    var m := cls.members[i];
    var v := NondurableValue(obj, i, originalValue);
    next := crit;
    if m.relation.SingleValued? && m.embedded {
      var more := CollectEmbedded(m.embeddedColumns, v, false);
      next := crit + more;
    } else if m.relation.NoRelation? && |m.columns| > 0 {
      next := crit + [Criterion(m.Column0(), m.jtype, v)];
    }
  }

  /** Whether every comparison holds for the row, stopping at the first that fails. */
  method MatchesAll(row: Row, crit: seq<Criterion>) returns (matches: bool)
    ensures matches == RowMatches(row, crit)
  {
    matches := true;
    var j := 0;
    while j < |crit|
      invariant j <= |crit|
      invariant forall k :: 0 <= k < j ==> CellMatches(GetCell(row, crit[k].column), crit[k].jtype, crit[k].value)
    {
      var c := crit[j];
      if !CellMatches(GetCell(row, c.column), c.jtype, c.value) {
        matches := false;
        return;
      }
      j := j + 1;
    }
  }

  /**
   * The row loop: from `start` (the first row, or 0) to the last row,
   * skipping missing rows, returning the first row that matches.
   */
  method ScanFrom(s: Sheet, start: nat, crit: seq<Criterion>) returns (r: int)
    requires start <= FirstRowNum(s)
    ensures r == FirstMatch(s, crit)
  {
    var last := LastRowNum(s);
    var i := start;
    while i < last + 1
      invariant forall j :: 0 <= j < i && j < |s| ==> !MatchAt(s, j, crit)
    {
      var row := GetRow(s, i);
      if row.Some? {
        var matches := MatchesAll(row.value, crit);
        if matches {
          assert MatchAt(s, i, crit);
          FirstMatchIsLeast(s, crit, i);
          return i;
        }
      }
      i := i + 1;
    }
    return -1;
  }

  /** A matching row with no match before it is the first match. */
  lemma FirstMatchIsLeast(s: Sheet, crit: seq<Criterion>, i: nat)
    requires i < |s| && MatchAt(s, i, crit)
    requires forall j :: 0 <= j < i ==> !MatchAt(s, j, crit)
    ensures FirstMatch(s, crit) == i
  {
  }

  /** `getRowNumberForObjectInWorkbook`. */
  method GetRowNumber(sheets: map<string, Sheet>, cls: ClassMeta, obj: ObjState, originalValue: bool) returns (r: int)
    requires cls.Valid()
    ensures r == RowNumber(sheets, cls, obj, originalValue)
  {
    match cls.identity {
      case Application =>
        var crit := CollectKeyCriteria(cls, obj);
        if cls.table in sheets && PhysicalRows(sheets[cls.table]) > 0 {
          var s := sheets[cls.table];
          r := ScanFrom(s, FirstRowNum(s), crit);
          return;
        }
      case Datastore =>
        if cls.table in sheets {
          var crit := [Criterion(cls.datastoreIdColumn, KeyType(obj.datastoreKey), obj.datastoreKey)];
          r := ScanFrom(sheets[cls.table], 0, crit);
          return;
        }
      case Nondurable =>
        var crit := CollectNondurableCriteria(cls, obj, originalValue);
        if cls.table in sheets && PhysicalRows(sheets[cls.table]) > 0 {
          var s := sheets[cls.table];
          r := ScanFrom(s, FirstRowNum(s), crit);
          return;
        }
    }
    r := -1;
  }

  // ---- counting ------------------------------------------------------------

  /** The key columns of an application-identity class. */
  function KeyColumns(cls: ClassMeta): (cols: seq<int>)
    requires cls.Valid()
    ensures |cols| == |cls.pkPositions|
    ensures forall j :: 0 <= j < |cols| ==> cols[j] == cls.KeyColumn(j)
  {
    seq(|cls.pkPositions|, j requires 0 <= j < |cls.pkPositions| => cls.KeyColumn(j))
  }

  /** The columns whose presence makes a row active, by identity kind. */
  function ActivityColumns(cls: ClassMeta): seq<int>
    requires cls.Valid()
  {
    match cls.identity
    case Application => KeyColumns(cls)
    case Datastore => [cls.datastoreIdColumn]
    case Nondurable => [0]
  }

  /**
   * `getNumberOfRowsInSheetOfWorkbook`: the number of active rows.  For
   * datastore and nondurable identity the loop does not skip missing rows,
   * so one inside first..last is dereferenced.
   */
  function RowCount(sheets: map<string, Sheet>, cls: ClassMeta): (r: Result<nat>)
    requires cls.Valid()
    ensures r.Failure? ==> r.fault == NullRow
    ensures r.Failure? <==> cls.table in sheets && !cls.identity.Application? &&
                            PhysicalRows(sheets[cls.table]) > 0 && NullRowWithin(sheets[cls.table])
    ensures r.Success? && cls.table in sheets ==> r.value == ActiveRows(sheets[cls.table], ActivityColumns(cls))
    ensures cls.table !in sheets ==> r == Success(0)
  {
    if cls.table !in sheets then Success(0)
    else
      var s := sheets[cls.table];
      if PhysicalRows(s) == 0 then
        assert ActiveRows(s, ActivityColumns(cls)) == 0 by { NoRowsNoneActive(s, ActivityColumns(cls)); }
        Success(0)
      else if !cls.identity.Application? && NullRowWithin(s) then Failure(NullRow)
      else Success(ActiveRows(s, ActivityColumns(cls)))
  }

  lemma {:induction false} NoRowsNoneActive(s: Sheet, cols: seq<int>)
    requires PhysicalRows(s) == 0
    ensures ActiveRows(s, cols) == 0
  {
    ActiveRowsIsCardinality(s, cols);
    assert ActiveSet(s, cols) == {};
  }

  /** Whether the row has every identifying cell, checking them all as the source's flag loop does. */
  method AllCellsPresent(row: Row, cols: seq<int>) returns (valid: bool)
    ensures valid == HasCells(row, cols)
  {
    valid := true;
    var j := 0;
    while j < |cols|
      invariant j <= |cols|
      invariant valid == (forall k :: 0 <= k < j ==> GetCell(row, cols[k]).Some?)
    {
      if GetCell(row, cols[j]).None? {
        valid := false;
      }
      j := j + 1;
    }
  }

  /** The count loop over first..last. */
  method CountFrom(s: Sheet, cols: seq<int>, skipMissing: bool) returns (r: Result<nat>)
    requires PhysicalRows(s) > 0
    ensures skipMissing ==> r == Success(ActiveRows(s, cols))
    ensures !skipMissing ==> r == if NullRowWithin(s) then Failure(NullRow) else Success(ActiveRows(s, cols))
  {
    var first, last := FirstRowNum(s), LastRowNum(s);
    OutsideBounds(s, cols);
    var numRows := 0;
    var i := first;
    while i < last + 1
      invariant Counting(s, cols, skipMissing, i, numRows)
    {
      var step := CountOne(s, cols, skipMissing, i, numRows);
      if step.Failure? {
        return step;
      }
      numRows := step.value;
      i := i + 1;
    }
    return Success(numRows);
  }

  /** The row loop's invariant: the active rows before `i`, and no missing row met when missing rows fail. */
  ghost predicate Counting(s: Sheet, cols: seq<int>, skipMissing: bool, i: int, numRows: nat)
  {
    FirstRowNum(s) <= i <= LastRowNum(s) + 1 <= |s| &&
    numRows == ActiveRows(s[..i], cols) &&
    (!skipMissing ==> forall j :: FirstRowNum(s) <= j < i ==> s[j].Some?)
  }

  /** One pass of the row loop: row `i` adds one when active, and a missing row fails unless skipped. */
  method CountOne(s: Sheet, cols: seq<int>, skipMissing: bool, i: int, numRows: nat) returns (r: Result<nat>)
    requires Counting(s, cols, skipMissing, i, numRows) && i <= LastRowNum(s)
    ensures r.Success? ==> Counting(s, cols, skipMissing, i + 1, r.value)
    ensures r.Failure? ==> r == Failure(NullRow) && !skipMissing && NullRowWithin(s)
  {
    var row := GetRow(s, i);
    PrefixStep(s, i, cols);
    if row.None? {
      if !skipMissing {
        return Failure(NullRow);
      }
      return Success(numRows);
    }
    var valid := AllCellsPresent(row.value, cols);
    if valid {
      return Success(numRows + 1);
    }
    return Success(numRows);
  }

  /** One more row of the prefix adds one exactly when that row is active. */
  lemma PrefixStep(s: Sheet, i: nat, cols: seq<int>)
    requires i < |s|
    ensures ActiveRows(s[..i + 1], cols) == ActiveRows(s[..i], cols) + (if ActiveAt(s, i, cols) then 1 else 0)
  {
    assert s[..i + 1][..i] == s[..i];
  }

  /** No row before the first or after the last is active. */
  lemma OutsideBounds(s: Sheet, cols: seq<int>)
    requires PhysicalRows(s) > 0
    ensures FirstRowNum(s) <= LastRowNum(s)
    ensures ActiveRows(s[..FirstRowNum(s)], cols) == 0
    ensures ActiveRows(s, cols) == ActiveRows(s[..LastRowNum(s) + 1], cols)
  {
    var first, last := FirstRowNum(s), LastRowNum(s);
    NoRowsNoneActive(s[..first], cols);
    assert s == s[..last + 1] + s[last + 1..];
    ActiveRowsAppend(s[..last + 1], s[last + 1..], cols);
    NoRowsNoneActive(s[last + 1..], cols);
  }

  /** `getNumberOfRowsInSheetOfWorkbook`. */
  method NumberOfRows(sheets: map<string, Sheet>, cls: ClassMeta) returns (r: Result<nat>)
    requires cls.Valid()
    ensures r == RowCount(sheets, cls)
  {
    if cls.table in sheets && PhysicalRows(sheets[cls.table]) > 0 {
      r := CountFrom(sheets[cls.table], ActivityColumns(cls), cls.identity.Application?);
    } else {
      r := Success(0);
    }
  }
}
