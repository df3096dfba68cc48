/**
 * Column resolution, row location and row counting of the older tree
 * (`ExcelUtils` in `src/java`).  Columns come from the user's column
 * metadata rather than from the framework's `Table`, and a row is counted
 * once per identifying cell it holds.
 */
module LegacyExcelUtils {
  import opened Outcomes
  import opened Values
  import opened JavaNum
  import opened JavaText
  import opened Cells
  import opened Mapping
  import opened LegacyMapping
  import opened RowAccounting
  import ExcelUtils

  // ---- column resolution ---------------------------------------------------

  /** `Integer.valueOf(colmd.getName())`; an unset name does not parse either. */
  function NamedColumn(md: ColumnMD): Option<int>
  {
    if md.name.Some? then ParseInt(md.name.value) else None
  }

  /**
   * The column of a member from its column metadata: the first column's
   * explicit position, else that column's name read as a number, else
   * `fallback` (the member's own number).
   */
  function MemberColumn(mds: seq<ColumnMD>, fallback: int): (c: int)
    ensures |mds| > 0 && mds[0].position.Some? ==> c == mds[0].position.value
    ensures |mds| > 0 && mds[0].position.None? && NamedColumn(mds[0]).Some? ==> c == NamedColumn(mds[0]).value
    ensures |mds| == 0 || (mds[0].position.None? && NamedColumn(mds[0]).None?) ==> c == fallback
  {
    if |mds| > 0 && mds[0].position.Some? then mds[0].position.value
    else if |mds| > 0 && NamedColumn(mds[0]).Some? then NamedColumn(mds[0]).value
    else fallback
  }

  /** A column named by its number is the same column as one given that position. */
  lemma NamedColumnAsPosition(n: int, jdbc: Option<string>, fallback: int)
    requires InInt(n)
    ensures MemberColumn([ColumnMD(None, Some(DecimalText(n)), jdbc)], fallback) == n
    ensures MemberColumn([ColumnMD(Some(n), None, jdbc)], fallback) == n
  {
    ParseDecimal(n);
  }

  /**
   * A surrogate slot's column as written: only a column name is read; an
   * explicit position is evaluated and dropped, so the fallback applies.
   */
  function SlotColumnAsWritten(md: Option<ColumnMD>, fallback: int): int
  {
    if md.Some? && md.value.position.None? && NamedColumn(md.value).Some? then NamedColumn(md.value).value
    else fallback
  }

  /** A surrogate slot's column with its explicit position honoured, by the member rule. */
  function SlotColumn(md: Option<ColumnMD>, fallback: int): int
  {
    if md.Some? then MemberColumn([md.value], fallback) else fallback
  }

  /** The column metadata of the surrogate version column. */
  function VersionColumnMD(cls: LegacyClass): Option<ColumnMD>
  {
    if cls.version.Some? then cls.version.value.columnMD else None
  }

  /** `getColumnIndexForFieldOfClass` as written. */
  function ColumnIndexForFieldAsWritten(cls: LegacyClass, fieldNumber: int): Result<int>
    requires fieldNumber < |cls.members|
  {
    if fieldNumber >= 0 then Success(MemberColumn(cls.members[fieldNumber].columnMDs, fieldNumber))
    else if fieldNumber == -1 then Success(SlotColumnAsWritten(cls.identityColumnMD, |cls.members|))
    else if fieldNumber == -2 then Success(SlotColumnAsWritten(VersionColumnMD(cls), |cls.members| + 1))
    else Failure(InvalidColumnSlot(fieldNumber))
  }

  /**
   * `getColumnIndexForFieldOfClass` with the slots' explicit positions
   * returned: a member number gives the member's column; -1 the datastore
   * identity column, by default just after the members; -2 the version
   * column, by default one further; any other negative number is an error.
   */
  function ColumnIndexForField(cls: LegacyClass, fieldNumber: int): (r: Result<int>)
    requires fieldNumber < |cls.members|
    ensures r.Failure? <==> fieldNumber < -2
    ensures r.Failure? ==> r.fault == InvalidColumnSlot(fieldNumber)
    ensures fieldNumber >= 0 ==> r == Success(MemberColumn(cls.members[fieldNumber].columnMDs, fieldNumber))
    ensures fieldNumber == -1 ==> r == Success(SlotColumn(cls.identityColumnMD, |cls.members|))
    ensures fieldNumber == -2 ==> r == Success(SlotColumn(VersionColumnMD(cls), |cls.members| + 1))
  {
    if fieldNumber >= 0 then Success(MemberColumn(cls.members[fieldNumber].columnMDs, fieldNumber))
    else if fieldNumber == -1 then Success(SlotColumn(cls.identityColumnMD, |cls.members|))
    else if fieldNumber == -2 then Success(SlotColumn(VersionColumnMD(cls), |cls.members| + 1))
    else Failure(InvalidColumnSlot(fieldNumber))
  }

  /**
   * As written, an explicit identity position is never returned: the
   * identity slot gives the fallback whatever the position says.
   */
  lemma IdentityPositionIgnored(cls: LegacyClass, p: int, jdbc: Option<string>, name: Option<string>)
    requires cls.identityColumnMD == Some(ColumnMD(Some(p), name, jdbc))
    ensures ColumnIndexForFieldAsWritten(cls, -1) == Success(|cls.members|)
    ensures ColumnIndexForField(cls, -1) == Success(p)
  {
  }

  /** The same holds for the version slot. */
  lemma VersionPositionIgnored(cls: LegacyClass, p: int, jdbc: Option<string>, name: Option<string>)
    requires VersionColumnMD(cls) == Some(ColumnMD(Some(p), name, jdbc))
    ensures ColumnIndexForFieldAsWritten(cls, -2) == Success(|cls.members| + 1)
    ensures ColumnIndexForField(cls, -2) == Success(p)
  {
  }

  /** A class whose identity column is declared at position 0 gets column 1 from the code as written. */
  lemma IdentityPositionCounterexample()
    ensures
      var cls := LegacyClass("T", Datastore, [LegacyMember(Member(TString, NoRelation, false, true, true, [0], false,
                   None, false, NoContainer, false, false, TOther, TOther, [], [], [], []), [], [], [])],
                   [], Some(ColumnMD(Some(0), None, None)), 0, None);
      ColumnIndexForFieldAsWritten(cls, -1) == Success(1) && ColumnIndexForField(cls, -1) == Success(0)
  {
  }

  /** The correction changes nothing but the slots with an explicit position. */
  lemma CorrectionOnlyHonoursPositions(cls: LegacyClass, fieldNumber: int)
    requires fieldNumber < |cls.members|
    requires fieldNumber == -1 ==> cls.identityColumnMD.None? || cls.identityColumnMD.value.position.None?
    requires fieldNumber == -2 ==> VersionColumnMD(cls).None? || VersionColumnMD(cls).value.position.None?
    ensures ColumnIndexForFieldAsWritten(cls, fieldNumber) == ColumnIndexForField(cls, fieldNumber)
  {
  }

  /**
   * Without any column metadata, member i is column i, the identity column
   * comes after the members and the version column after that: no two slots
   * share a column.
   */
  lemma DefaultColumnsDistinct(cls: LegacyClass, a: int, b: int)
    requires forall i :: 0 <= i < |cls.members| ==> |cls.members[i].columnMDs| == 0
    requires cls.identityColumnMD.None? && VersionColumnMD(cls).None?
    requires -2 <= a < |cls.members| && -2 <= b < |cls.members| && a != b
    ensures ColumnIndexForField(cls, a).Success? && ColumnIndexForField(cls, b).Success?
    ensures ColumnIndexForField(cls, a).value != ColumnIndexForField(cls, b).value
  {
  }

  /** The column of member `p`. */
  function FieldColumn(cls: LegacyClass, p: nat): (c: int)
    requires p < |cls.members|
    ensures ColumnIndexForField(cls, p) == Success(c)
  {
    MemberColumn(cls.members[p].columnMDs, p)
  }

  /** The datastore identity column (slot -1). */
  function IdentityColumn(cls: LegacyClass): (c: int)
    ensures ColumnIndexForField(cls, -1) == Success(c)
  {
    SlotColumn(cls.identityColumnMD, |cls.members|)
  }

  /** The surrogate version column (slot -2). */
  function VersionColumn(cls: LegacyClass): (c: int)
    ensures ColumnIndexForField(cls, -2) == Success(c)
  {
    SlotColumn(VersionColumnMD(cls), |cls.members| + 1)
  }

  /**
   * `getColumnIndexForFieldOfEmbeddedClass`: the column of the `fieldNumber`-th
   * member of an embedded member, by the member rule over the embedded
   * metadata.  A number past the embedded metadata is an
   * `ArrayIndexOutOfBoundsException`; a negative one is refused.
   */
  function ColumnIndexForEmbeddedField(m: LegacyMember, fieldNumber: int): (r: Result<int>)
    ensures fieldNumber < 0 ==> r == Failure(InvalidColumnSlot(fieldNumber))
    ensures fieldNumber >= |m.embeddedMDs| ==> r == Failure(IndexOutOfBounds)
    ensures 0 <= fieldNumber < |m.embeddedMDs| ==> r == Success(MemberColumn(m.embeddedMDs[fieldNumber], fieldNumber))
  {
    if fieldNumber < 0 then Failure(InvalidColumnSlot(fieldNumber))
    else if fieldNumber >= |m.embeddedMDs| then Failure(IndexOutOfBounds)
    else Success(MemberColumn(m.embeddedMDs[fieldNumber], fieldNumber))
  }

  // ---- the comparisons a search makes --------------------------------------

  /**
   * The comparisons for the first `n` members of an embedded value: one per
   * member of the embedded class, at the embedded resolver's column.  It
   * fails when the embedded metadata describes fewer members than that.
   */
  function EmbeddedCriteria(m: LegacyMember, v: Value, n: nat): (r: Result<seq<Criterion>>)
    requires n <= |m.embeddedTypes|
    ensures r.Success? <==> n <= |m.embeddedMDs|
    ensures r.Failure? ==> r.fault == IndexOutOfBounds
    ensures r.Success? ==> |r.value| == n
    ensures r.Success? ==> forall j :: 0 <= j < n ==>
              r.value[j] == Criterion(MemberColumn(m.embeddedMDs[j], j), m.embeddedTypes[j], EmbeddedField(v, j))
  {
    if n == 0 then Success([])
    else
      var init :- EmbeddedCriteria(m, v, n - 1);
      var col :- ColumnIndexForEmbeddedField(m, n - 1);
      Success(init + [Criterion(col, m.embeddedTypes[n - 1], EmbeddedField(v, n - 1))])
  }

  /** The comparisons one key member contributes; no converter is applied. */
  function KeyMemberCriteria(cls: LegacyClass, p: nat, v: Value): Result<seq<Criterion>>
    requires p < |cls.members|
  {
    var m := cls.members[p];
    if m.member.relation.SingleValued? && m.member.embedded then EmbeddedCriteria(m, v, |m.embeddedTypes|)
    else Success([Criterion(FieldColumn(cls, p), m.member.jtype, v)])
  }

  /** The comparisons for the first `n` key members. */
  function KeyCriteria(cls: LegacyClass, obj: ObjState, n: nat): Result<seq<Criterion>>
    requires cls.Valid() && n <= |cls.pkPositions|
  {
    if n == 0 then Success([])
    else
      var init :- KeyCriteria(cls, obj, n - 1);
      var p := cls.pkPositions[n - 1];
      var more :- KeyMemberCriteria(cls, p, obj.Provide(p));
      Success(init + more)
  }

  /** The comparisons one member contributes to a nondurable search. */
  function NondurableMemberCriteria(cls: LegacyClass, p: nat, v: Value): Result<seq<Criterion>>
    requires p < |cls.members|
  {
    var m := cls.members[p];
    if m.member.relation.SingleValued? && m.member.embedded then EmbeddedCriteria(m, v, |m.embeddedTypes|)
    else if m.member.relation.NoRelation? then Success([Criterion(FieldColumn(cls, p), m.member.jtype, v)])
    else Success([])
  }

  /** The comparisons for the first `n` members of a nondurable object. */
  function NondurableCriteria(cls: LegacyClass, obj: ObjState, originalValue: bool, n: nat): Result<seq<Criterion>>
    requires n <= |cls.members|
  {
    if n == 0 then Success([])
    else
      var init :- NondurableCriteria(cls, obj, originalValue, n - 1);
      var more :- NondurableMemberCriteria(cls, n - 1, ExcelUtils.NondurableValue(obj, n - 1, originalValue));
      Success(init + more)
  }

  /** The comparisons that identify the object's row, by identity kind. */
  function Criteria(cls: LegacyClass, obj: ObjState, originalValue: bool): Result<seq<Criterion>>
    requires cls.Valid()
  {
    match cls.identity
    case Application => KeyCriteria(cls, obj, |cls.pkPositions|)
    case Datastore => Success([Criterion(IdentityColumn(cls), KeyType(obj.datastoreKey), obj.datastoreKey)])
    case Nondurable => NondurableCriteria(cls, obj, originalValue, |cls.members|)
  }

  /**
   * `getRowNumberForObjectInWorkbook`: the lowest matching row index, or -1
   * when the sheet is missing or no row matches; an error when the
   * comparisons cannot be built.
   */
  function RowNumber(sheets: map<string, Sheet>, cls: LegacyClass, obj: ObjState, originalValue: bool): (r: Result<int>)
    requires cls.Valid()
    ensures r.Success? <==> Criteria(cls, obj, originalValue).Success?
    ensures r.Success? ==> r.value == -1 || (cls.table in sheets && 0 <= r.value < |sheets[cls.table]|)
    ensures r.Success? && r.value >= 0 ==>
              MatchAt(sheets[cls.table], r.value, Criteria(cls, obj, originalValue).value) &&
              forall j :: 0 <= j < r.value ==> !MatchAt(sheets[cls.table], j, Criteria(cls, obj, originalValue).value)
    ensures r.Success? && r.value == -1 && cls.table in sheets ==>
              forall j :: 0 <= j < |sheets[cls.table]| ==> !MatchAt(sheets[cls.table], j, Criteria(cls, obj, originalValue).value)
  {
    var crit :- Criteria(cls, obj, originalValue);
    if cls.table in sheets then Success(FirstMatch(sheets[cls.table], crit)) else Success(-1)
  }

  // ---- the loops -----------------------------------------------------------

  /** The comparisons of an embedded value, collected in a loop. */
  method CollectEmbedded(m: LegacyMember, v: Value) returns (r: Result<seq<Criterion>>)
    ensures r == EmbeddedCriteria(m, v, |m.embeddedTypes|)
  {
    var crit := [];
    var j := 0;
    while j < |m.embeddedTypes|
      invariant j <= |m.embeddedTypes|
      invariant EmbeddedCriteria(m, v, j) == Success(crit)
    {
      var col := ColumnIndexForEmbeddedField(m, j);
      if col.Failure? {
        EmbeddedFailurePersists(m, v, j + 1, |m.embeddedTypes|);
        return Failure(col.fault);
      }
      crit := crit + [Criterion(col.value, m.embeddedTypes[j], EmbeddedField(v, j))];
      j := j + 1;
    }
    return Success(crit);
  }

  /** Once the embedded metadata runs out, every longer prefix fails the same way. */
  lemma EmbeddedFailurePersists(m: LegacyMember, v: Value, i: nat, n: nat)
    requires |m.embeddedMDs| < i <= n <= |m.embeddedTypes|
    ensures EmbeddedCriteria(m, v, n) == Failure(IndexOutOfBounds)
    decreases n
  {
    if n > i {
      EmbeddedFailurePersists(m, v, i, n - 1);
    }
  }

  /** The key comparisons, collected in a loop over the key members. */
  method CollectKeyCriteria(cls: LegacyClass, obj: ObjState) returns (r: Result<seq<Criterion>>)
    requires cls.Valid()
    ensures r == KeyCriteria(cls, obj, |cls.pkPositions|)
  {
    var crit := [];
    for i := 0 to |cls.pkPositions|
      invariant KeyCriteria(cls, obj, i) == Success(crit)
    {
      var next := CollectKeyStep(cls, obj, i, crit);
      if next.Failure? {
        return next;
      }
      crit := next.value;
    }
    return Success(crit);
  }

  /** One pass of the key loop: the comparisons of the `i`-th key member appended, or its failure. */
  method CollectKeyStep(cls: LegacyClass, obj: ObjState, i: nat, crit: seq<Criterion>) returns (next: Result<seq<Criterion>>)
    requires cls.Valid() && i < |cls.pkPositions| && KeyCriteria(cls, obj, i) == Success(crit)
    ensures next.Success? ==> next == KeyCriteria(cls, obj, i + 1)
    ensures next.Failure? ==> next == KeyCriteria(cls, obj, |cls.pkPositions|)
  {
    var p := cls.pkPositions[i];
    var m := cls.members[p];
    var more: Result<seq<Criterion>>;
    if m.member.relation.SingleValued? && m.member.embedded {
      more := CollectEmbedded(m, obj.Provide(p));
    } else {
      more := Success([Criterion(FieldColumn(cls, p), m.member.jtype, obj.Provide(p))]);
    }
    if more.Failure? {
      KeyFailurePersists(cls, obj, i + 1, |cls.pkPositions|, more.fault);
      return Failure(more.fault);
    }
    return Success(crit + more.value);
  }

  lemma KeyFailurePersists(cls: LegacyClass, obj: ObjState, i: nat, n: nat, f: Fault)
    requires cls.Valid() && 0 < i <= n <= |cls.pkPositions|
    requires KeyCriteria(cls, obj, i) == Failure(f)
    ensures KeyCriteria(cls, obj, n) == Failure(f)
    decreases n
  {
    if n > i {
      KeyFailurePersists(cls, obj, i, n - 1, f);
    }
  }

  /** The nondurable comparisons, collected in a loop over all members. */
  method CollectNondurableCriteria(cls: LegacyClass, obj: ObjState, originalValue: bool) returns (r: Result<seq<Criterion>>)
    ensures r == NondurableCriteria(cls, obj, originalValue, |cls.members|)
  {
    var crit := [];
    for i := 0 to |cls.members|
      invariant NondurableCriteria(cls, obj, originalValue, i) == Success(crit)
    {
      var next := CollectNondurableStep(cls, obj, originalValue, i, crit);
      if next.Failure? {
        return next;
      }
      crit := next.value;
    }
    return Success(crit);
  }

  /** One pass of the member loop: the comparisons of the `i`-th member appended, or its failure. */
  method CollectNondurableStep(cls: LegacyClass, obj: ObjState, originalValue: bool, i: nat, crit: seq<Criterion>)
      returns (next: Result<seq<Criterion>>)
    requires i < |cls.members| && NondurableCriteria(cls, obj, originalValue, i) == Success(crit)
    ensures next.Success? ==> next == NondurableCriteria(cls, obj, originalValue, i + 1)
    ensures next.Failure? ==> next == NondurableCriteria(cls, obj, originalValue, |cls.members|)
  {
    var m := cls.members[i];
    var v := ExcelUtils.NondurableValue(obj, i, originalValue);
    var more: Result<seq<Criterion>> := Success([]);
    if m.member.relation.SingleValued? && m.member.embedded {
      more := CollectEmbedded(m, v);
    } else if m.member.relation.NoRelation? {
      more := Success([Criterion(FieldColumn(cls, i), m.member.jtype, v)]);
    }
    if more.Failure? {
      NondurableFailurePersists(cls, obj, originalValue, i + 1, |cls.members|, more.fault);
      return Failure(more.fault);
    }
    return Success(crit + more.value);
  }

  lemma NondurableFailurePersists(cls: LegacyClass, obj: ObjState, originalValue: bool, i: nat, n: nat, f: Fault)
    requires 0 < i <= n <= |cls.members|
    requires NondurableCriteria(cls, obj, originalValue, i) == Failure(f)
    ensures NondurableCriteria(cls, obj, originalValue, n) == Failure(f)
    decreases n
  {
    if n > i {
      NondurableFailurePersists(cls, obj, originalValue, i, n - 1, f);
    }
  }

  /** `getRowNumberForObjectInWorkbook`. */
  method GetRowNumber(sheets: map<string, Sheet>, cls: LegacyClass, obj: ObjState, originalValue: bool) returns (r: Result<int>)
    requires cls.Valid()
    ensures r == RowNumber(sheets, cls, obj, originalValue)
  {
    match cls.identity {
      case Application =>
        var crit := CollectKeyCriteria(cls, obj);
        if crit.Failure? {
          return Failure(crit.fault);
        }
        if cls.table in sheets && PhysicalRows(sheets[cls.table]) > 0 {
          var s := sheets[cls.table];
          var i := ExcelUtils.ScanFrom(s, FirstRowNum(s), crit.value);
          return Success(i);
        }
      case Datastore =>
        if cls.table in sheets {
          var crit := [Criterion(IdentityColumn(cls), KeyType(obj.datastoreKey), obj.datastoreKey)];
          var i := ExcelUtils.ScanFrom(sheets[cls.table], 0, crit);
          return Success(i);
        }
      case Nondurable =>
        var crit := CollectNondurableCriteria(cls, obj, originalValue);
        if crit.Failure? {
          return Failure(crit.fault);
        }
        if cls.table in sheets && PhysicalRows(sheets[cls.table]) > 0 {
          var s := sheets[cls.table];
          var i := ExcelUtils.ScanFrom(s, FirstRowNum(s), crit.value);
          return Success(i);
        }
    }
    if cls.table in sheets {
      NoRowsNoMatch(sheets[cls.table], Criteria(cls, obj, originalValue).value);
    }
    return Success(-1);
  }

  /** A sheet without rows matches nothing. */
  lemma NoRowsNoMatch(s: Sheet, crit: seq<Criterion>)
    requires PhysicalRows(s) == 0
    ensures FirstMatch(s, crit) == -1
  {
  }

  // ---- counting ------------------------------------------------------------

  /** The resolved columns of the key members. */
  function KeyColumns(cls: LegacyClass): (cols: seq<int>)
    requires cls.Valid()
    ensures |cols| == |cls.pkPositions|
    ensures forall j :: 0 <= j < |cols| ==> cols[j] == FieldColumn(cls, cls.pkPositions[j])
  {
    seq(|cls.pkPositions|, j requires 0 <= j < |cls.pkPositions| => FieldColumn(cls, cls.pkPositions[j]))
  }

  /**
   * `getNumberOfRowsInSheetOfWorkbook`: for application identity the
   * number of key cells present over all rows; for datastore identity the
   * number of rows with an identity cell, and for nondurable identity with a
   * cell in column 0, these two dereferencing any missing row in
   * first..last.
   */
  function RowCount(sheets: map<string, Sheet>, cls: LegacyClass): (r: Result<nat>)
    requires cls.Valid()
    ensures r.Failure? ==> r.fault == NullRow
    ensures r.Failure? <==> cls.table in sheets && !cls.identity.Application? &&
                            PhysicalRows(sheets[cls.table]) > 0 && NullRowWithin(sheets[cls.table])
    ensures cls.table !in sheets ==> r == Success(0)
    ensures cls.table in sheets && cls.identity.Application? ==>
              r == Success(PresentCellTotal(sheets[cls.table], KeyColumns(cls)))
    ensures r.Success? && cls.table in sheets && cls.identity.Datastore? ==>
              r.value == ActiveRows(sheets[cls.table], [IdentityColumn(cls)])
    ensures r.Success? && cls.table in sheets && cls.identity.Nondurable? ==>
              r.value == ActiveRows(sheets[cls.table], [0])
  {
    if cls.table !in sheets then Success(0)
    else
      var s := sheets[cls.table];
      if PhysicalRows(s) == 0 then
        PresentCellTotalOfNoRows(s, KeyColumns(cls));
        ExcelUtils.NoRowsNoneActive(s, [IdentityColumn(cls)]);
        ExcelUtils.NoRowsNoneActive(s, [0]);
        Success(0)
      else if cls.identity.Application? then Success(PresentCellTotal(s, KeyColumns(cls)))
      else if NullRowWithin(s) then Failure(NullRow)
      else if cls.identity.Datastore? then Success(ActiveRows(s, [IdentityColumn(cls)]))
      else Success(ActiveRows(s, [0]))
  }

  /**
   * For a single-field key the per-cell count is the number of active rows;
   * for a composite key every complete row counts once per key field.
   */
  lemma PerCellCountOfKeys(sheets: map<string, Sheet>, cls: LegacyClass)
    requires cls.Valid() && cls.identity.Application? && cls.table in sheets
    ensures |cls.pkPositions| == 1 ==> RowCount(sheets, cls) == Success(ActiveRows(sheets[cls.table], KeyColumns(cls)))
    ensures RowCount(sheets, cls).Success?
    ensures |cls.pkPositions| * ActiveRows(sheets[cls.table], KeyColumns(cls)) <= RowCount(sheets, cls).value
  {
    var s, cols := sheets[cls.table], KeyColumns(cls);
    PresentCellTotalBounds(s, cols);
    if |cls.pkPositions| == 1 {
      assert cols == [cols[0]];
      PresentCellTotalSingleColumn(s, cols[0]);
    }
  }

  /** The number of the row's cells present at the columns, counted in a loop. */
  method CountCells(row: Row, cols: seq<int>) returns (n: nat)
    ensures n == PresentCells(row, cols)
  {
    n := 0;
    var j := 0;
    while j < |cols|
      invariant j <= |cols|
      invariant n == PresentCells(row, cols[..j])
    {
      assert cols[..j + 1][..j] == cols[..j];
      if GetCell(row, cols[j]).Some? {
        n := n + 1;
      }
      j := j + 1;
    }
    assert cols[..j] == cols;
  }

  /** The per-cell count loop over first..last. */
  method CountCellsFrom(s: Sheet, cols: seq<int>) returns (numRows: nat)
    requires PhysicalRows(s) > 0
    ensures numRows == PresentCellTotal(s, cols)
  {
    var first, last := FirstRowNum(s), LastRowNum(s);
    CellsOutsideBounds(s, cols);
    numRows := 0;
    var i := first;
    while i < last + 1
      invariant first <= i <= last + 1
      invariant numRows == PresentCellTotal(s[..i], cols)
    {
      var row := GetRow(s, i);
      CellTotalStep(s, i, cols);
      if row.Some? {
        var n := CountCells(row.value, cols);
        numRows := numRows + n;
      }
      i := i + 1;
    }
  }

  /** One more row of the prefix adds its present cells. */
  lemma CellTotalStep(s: Sheet, i: nat, cols: seq<int>)
    requires i < |s|
    ensures PresentCellTotal(s[..i + 1], cols) == PresentCellTotal(s[..i], cols) + (if s[i].Some? then PresentCells(s[i].value, cols) else 0)
  {
    assert s[..i + 1][..i] == s[..i];
  }

  /** No row before the first or after the last has a present cell. */
  lemma CellsOutsideBounds(s: Sheet, cols: seq<int>)
    requires PhysicalRows(s) > 0
    ensures FirstRowNum(s) <= LastRowNum(s) < |s|
    ensures PresentCellTotal(s[..FirstRowNum(s)], cols) == 0
    ensures PresentCellTotal(s, cols) == PresentCellTotal(s[..LastRowNum(s) + 1], cols)
  {
    var first, last := FirstRowNum(s), LastRowNum(s);
    assert first <= last;
    PresentCellTotalOfNoRows(s[..first], cols);
    assert s == s[..last + 1] + s[last + 1..];
    PresentCellTotalAppend(s[..last + 1], s[last + 1..], cols);
    PresentCellTotalOfNoRows(s[last + 1..], cols);
  }

  /** `getNumberOfRowsInSheetOfWorkbook`. */
  method NumberOfRows(sheets: map<string, Sheet>, cls: LegacyClass) returns (r: Result<nat>)
    requires cls.Valid()
    ensures r == RowCount(sheets, cls)
  {
    if cls.table !in sheets || PhysicalRows(sheets[cls.table]) == 0 {
      return Success(0);
    }
    var s := sheets[cls.table];
    match cls.identity {
      case Application =>
        var n := CountCellsFrom(s, KeyColumns(cls));
        r := Success(n);
      case Datastore =>
        r := ExcelUtils.CountFrom(s, [IdentityColumn(cls)], false);
      case Nondurable =>
        r := ExcelUtils.CountFrom(s, [0], false);
    }
  }
}
