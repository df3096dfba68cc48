/**
 * The old tree's `ExcelCandidateList`: the same counting and selection as
 * `Candidates`, with the identifying column resolved by the old tree's
 * `getColumnIndexForFieldOfClass`: the first key field's column, or the
 * datastore identity slot.
 */
module LegacyCandidates {
  import opened Outcomes
  import opened Cells
  import opened Mapping
  import opened LegacyMapping
  import opened RowAccounting
  import LegacyExcelUtils
  import Candidates

  /** A class with application identity has a key field, as the framework's metadata guarantees. */
  predicate Keyed(cls: LegacyClass)
  {
    cls.identity.Application? ==> |cls.pkPositions| > 0
  }

  /** The old tree's column: the first key field's column, the datastore identity slot's column, or column 0. */
  function ExtentOf(cls: LegacyClass): (e: Candidates.Extent)
    requires cls.Valid() && Keyed(cls)
    ensures e.table == cls.table && e.identity == cls.identity
    ensures cls.identity.Application? ==>
              LegacyExcelUtils.ColumnIndexForField(cls, cls.pkPositions[0]) == Success(e.idColumn)
    ensures cls.identity.Datastore? ==> LegacyExcelUtils.ColumnIndexForField(cls, -1) == Success(e.idColumn)
    ensures cls.identity.Nondurable? ==> e.idColumn == 0
  {
    match cls.identity
    case Application => Candidates.Extent(cls.table, cls.identity, LegacyExcelUtils.FieldColumn(cls, cls.pkPositions[0]))
    case Datastore => Candidates.Extent(cls.table, cls.identity, LegacyExcelUtils.IdentityColumn(cls))
    case Nondurable => Candidates.Extent(cls.table, cls.identity, 0)
  }

  /**
   * For datastore and nondurable identity the list counts a class's
   * instances as the old handler's row count does.  For application
   * identity the handler counts key cells, one per key field, so with a
   * single key field the two agree whenever the list's count succeeds.
   */
  lemma InstanceCountAgreesWithRowCount(sheets: map<string, Sheet>, cls: LegacyClass)
    requires cls.Valid() && Keyed(cls)
    requires Candidates.InstanceCount(sheets, ExtentOf(cls)).Success?
    requires cls.identity.Application? ==> |cls.pkPositions| == 1
    ensures LegacyExcelUtils.RowCount(sheets, cls) == Candidates.InstanceCount(sheets, ExtentOf(cls))
  {
    if cls.identity.Application? && cls.table in sheets {
      var s := sheets[cls.table];
      var cols := LegacyExcelUtils.KeyColumns(cls);
      assert cols == [ExtentOf(cls).idColumn];
      PresentCellTotalSingleColumn(s, ExtentOf(cls).idColumn);
    }
  }
}
