/**
 * `ExcelPersistenceHandler` of the current tree: insert, update, delete,
 * fetch and locate of one object in its class's sheet.  Each operation is a
 * function from the workbook's sheets to the new sheets or the exception
 * raised, and a method over the `Workbook` that does what the handler does
 * with the field managers and is proved to give the function's answer.
 */
module Persistence {
  import opened Outcomes
  import opened Values
  import opened JavaNum
  import opened Cells
  import opened Mapping
  import opened RowAccounting
  import opened Bookkeeping
  import ExcelUtils
  import StoreFields
  import FetchFields

  /** Every field number names a member. */
  predicate FieldsValid(cls: ClassMeta, fields: seq<nat>)
  {
    forall i :: 0 <= i < |fields| ==> fields[i] < |cls.members|
  }

  /** `cmd.getAllMemberPositions()`. */
  function AllPositions(cls: ClassMeta): (ps: seq<nat>)
    ensures |ps| == |cls.members| && forall i :: 0 <= i < |ps| ==> ps[i] == i
  {
    seq(|cls.members|, i => i)
  }

  // ---- provideFields -------------------------------------------------------------------

  /** Each field in turn handed to `storeObjectField` with the object's value for it. */
  function StoreEach(cls: ClassMeta, env: Env, insert: bool, row: Row, obj: ObjState, fields: seq<nat>): (r: Result<Row>)
    requires cls.Valid() && FieldsValid(cls, fields)
    decreases |fields|
  {
    if |fields| == 0 then Success(row)
    else
      var prev :- StoreEach(cls, env, insert, row, obj, fields[..|fields| - 1]);
      var p := fields[|fields| - 1];
      StoreFields.StoreObject(cls, env, insert, prev, p, obj.Provide(p))
  }

  /** Once a field fails, the whole list fails with its fault. */
  lemma {:induction false} StoreEachFailureStays(cls: ClassMeta, env: Env, insert: bool, row: Row, obj: ObjState, fields: seq<nat>, k: nat)
    requires cls.Valid() && FieldsValid(cls, fields) && k <= |fields|
    requires StoreEach(cls, env, insert, row, obj, fields[..k]).Failure?
    ensures StoreEach(cls, env, insert, row, obj, fields) == StoreEach(cls, env, insert, row, obj, fields[..k])
    decreases |fields| - k
  {
    if k < |fields| {
      var init := fields[..|fields| - 1];
      assert init[..k] == fields[..k];
      assert FieldsValid(cls, init);
      StoreEachFailureStays(cls, env, insert, row, obj, init, k);
      StoreEachInitFails(cls, env, insert, row, obj, fields);
    } else {
      assert fields[..k] == fields;
    }
  }

  /** A failure of all but the last field is the failure of all of them. */
  lemma StoreEachInitFails(cls: ClassMeta, env: Env, insert: bool, row: Row, obj: ObjState, fields: seq<nat>)
    requires cls.Valid() && FieldsValid(cls, fields) && |fields| > 0
    requires StoreEach(cls, env, insert, row, obj, fields[..|fields| - 1]).Failure?
    ensures StoreEach(cls, env, insert, row, obj, fields) == StoreEach(cls, env, insert, row, obj, fields[..|fields| - 1])
  {
  }

  /**
   * `op.provideFields(fields, new StoreFieldManager(op, row, insert, table))`:
   * the constructor's key cells, then every field.
   */
  function ProvideFields(cls: ClassMeta, env: Env, insert: bool, row: Row, obj: ObjState, fields: seq<nat>): Result<Row>
    requires cls.Valid() && FieldsValid(cls, fields)
  {
    var keyed :- StoreFields.KeyCells(cls, row, false);
    StoreEach(cls, env, insert, keyed, obj, fields)
  }

  /** The same, with the field manager object and its `storeObjectField` calls. */
  method ProvideFieldsTo(cls: ClassMeta, env: Env, insert: bool, row: Row, obj: ObjState, fields: seq<nat>) returns (r: Result<Row>)
    requires cls.Valid() && FieldsValid(cls, fields)
    ensures r == ProvideFields(cls, env, insert, row, obj, fields)
  {
    var sfm := new StoreFields.StoreFieldManager(cls, env, row, insert);
    var k := sfm.CreateKeyCells(false);
    if k.Fail? {
      return Failure(k.fault);
    }
    ghost var keyed := sfm.row;
    for i := 0 to |fields|
      invariant StoreEach(cls, env, insert, keyed, obj, fields[..i]) == Success(sfm.row)
    {
      var o := StoreOne(sfm, cls, env, insert, keyed, obj, fields, i);
      if o.Fail? {
        return Failure(o.fault);
      }
    }
    assert fields[..|fields|] == fields;
    return Success(sfm.row);
  }

  /** One pass of the field loop: `storeObjectField` of the `i`-th field. */
  method StoreOne(sfm: StoreFields.StoreFieldManager, cls: ClassMeta, env: Env, insert: bool, ghost keyed: Row, obj: ObjState, fields: seq<nat>, i: nat)
      returns (o: Outcome)
    requires cls.Valid() && FieldsValid(cls, fields) && i < |fields|
    requires sfm.cls == cls && sfm.env == env && sfm.insert == insert
    requires StoreEach(cls, env, insert, keyed, obj, fields[..i]) == Success(sfm.row)
    modifies sfm
    ensures o.Done? ==> StoreEach(cls, env, insert, keyed, obj, fields[..i + 1]) == Success(sfm.row)
    ensures o.Fail? ==> StoreEach(cls, env, insert, keyed, obj, fields) == Failure(o.fault)
  {
    assert fields[..i + 1][..i] == fields[..i];
    o := sfm.StoreObjectField(fields[i], obj.Provide(fields[i]));
    if o.Fail? {
      StoreEachFailureStays(cls, env, insert, keyed, obj, fields, i + 1);
    }
  }

  // ---- what the field writes leave in the row ------------------------------------------

  /**
   * A member the cell codec carries unchanged: stored by this operation,
   * plain (no relation, no converter), and holding `null` or a value its
   * class represents.
   */
  predicate PlainStored(cls: ClassMeta, env: Env, insert: bool, obj: ObjState, p: nat)
    requires cls.Valid()
  {
    p < |cls.members| &&
    var m := cls.members[p];
    StoreFields.Storable(m, insert) && m.relation.NoRelation? && m.converter.None? &&
    (obj.Provide(p).VNull? || FetchFields.Representable(m.jtype, obj.Provide(p), env, m.numericColumn))
  }

  /** No other field of `fields` writes the column member `p` is read from. */
  predicate OwnColumn(cls: ClassMeta, fields: seq<nat>, p: nat)
    requires cls.Valid() && FieldsValid(cls, fields) && p < |cls.members|
  {
    forall i :: 0 <= i < |fields| && fields[i] != p ==> cls.members[p].Column0() !in cls.members[fields[i]].columns
  }

  /** A plain member reads the same from two rows that agree on its column. */
  lemma SameCellSameRead(cls: ClassMeta, env: Env, a: Row, b: Row, p: nat)
    requires cls.Valid() && p < |cls.members|
    requires cls.members[p].relation.NoRelation? && cls.members[p].converter.None?
    requires var c := cls.members[p].Column0(); (c in a <==> c in b) && (c in a ==> a[c] == b[c])
    ensures FetchFields.FetchObject(cls, env, a, p) == FetchFields.FetchObject(cls, env, b, p)
  {
  }

  /**
   * After the field loop, every plain member among the fields that owns its
   * column reads back as the object's value for it: a later field never
   * overwrites it, and the last write of it is what the codec reads.
   */
  lemma {:induction false} StoreEachReadsBack(cls: ClassMeta, env: Env, insert: bool, row: Row, obj: ObjState, fields: seq<nat>, p: nat)
    requires cls.Valid() && FieldsValid(cls, fields)
    requires p in fields && PlainStored(cls, env, insert, obj, p) && OwnColumn(cls, fields, p)
    requires StoreEach(cls, env, insert, row, obj, fields).Success?
    ensures FetchFields.FetchObject(cls, env, StoreEach(cls, env, insert, row, obj, fields).value, p) == Success((obj.Provide(p), false))
    decreases |fields|
  {
    var init, last := fields[..|fields| - 1], fields[|fields| - 1];
    assert FieldsValid(cls, init);
    var prev := StoreEach(cls, env, insert, row, obj, init).value;
    var after := StoreEach(cls, env, insert, row, obj, fields).value;
    assert StoreFields.StoreObject(cls, env, insert, prev, last, obj.Provide(last)) == Success(after);
    if last == p {
      FetchFields.PlainFieldRoundTrip(cls, env, insert, prev, p, obj.Provide(p));
    } else {
      var k :| 0 <= k < |fields| && fields[k] == p;
      assert init[k] == p;
      assert OwnColumn(cls, init, p) by {
        forall i | 0 <= i < |init| && init[i] != p
          ensures cls.members[p].Column0() !in cls.members[init[i]].columns
        {
          assert init[i] == fields[i];
        }
      }
      StoreEachReadsBack(cls, env, insert, row, obj, init, p);
      assert cls.members[p].Column0() !in cls.members[last].columns;
      SameCellSameRead(cls, env, prev, after, p);
    }
  }

  /** The same for the whole `provideFields` call, key cells included. */
  lemma ProvideFieldsReadsBack(cls: ClassMeta, env: Env, insert: bool, row: Row, obj: ObjState, fields: seq<nat>, p: nat)
    requires cls.Valid() && FieldsValid(cls, fields)
    requires p in fields && PlainStored(cls, env, insert, obj, p) && OwnColumn(cls, fields, p)
    requires ProvideFields(cls, env, insert, row, obj, fields).Success?
    ensures FetchFields.FetchObject(cls, env, ProvideFields(cls, env, insert, row, obj, fields).value, p) == Success((obj.Provide(p), false))
  {
    var keyed := StoreFields.KeyCells(cls, row, false).value;
    StoreEachReadsBack(cls, env, insert, keyed, obj, fields, p);
  }

  // ---- insert ----------------------------------------------------------------------------

  /** The version column: the version field's column 0, or the surrogate `VERSION` column. */
  function VersionColumn(cls: ClassMeta, vm: VersionMeta): nat
    requires cls.Valid() && cls.version == Some(vm)
  {
    if vm.field.Some? then cls.members[vm.field.value].Column0() else vm.surrogateColumn
  }

  /**
   * The row insert leaves: all fields over the reused or new row, then the
   * datastore identity in its cell, then the next version in the version
   * cell, each cell created when absent.
   */
  function InsertedRow(cls: ClassMeta, env: Env, obj: ObjState, next: Value, row: Row): (r: Result<Row>)
    requires cls.Valid()
    ensures r.Success? && cls.version.Some? ==>
              var col := VersionColumn(cls, cls.version.value);
              col in r.value && (VersionCell(next).Some? ==> r.value[col] == VersionCell(next).value)
    ensures r.Success? && cls.identity.Datastore? &&
            (cls.version.Some? ==> VersionColumn(cls, cls.version.value) != cls.datastoreIdColumn) ==>
              IdCell(obj.datastoreKey).Success? &&
              cls.datastoreIdColumn in r.value && r.value[cls.datastoreIdColumn] == IdCell(obj.datastoreKey).value
    ensures r.Success? && cls.identity.Datastore? ==> cls.datastoreIdColumn in r.value
    ensures (cls.identity.Datastore? && ProvideFields(cls, env, true, row, obj, AllPositions(cls)).Success? &&
             IdCell(obj.datastoreKey).Failure?) ==> r == Failure(IdCell(obj.datastoreKey).fault)
  {
    var written :- ProvideFields(cls, env, true, row, obj, AllPositions(cls));
    var withId :- WithIdentity(cls, obj, written);
    match cls.version
    case None => Success(withId)
    case Some(vm) => CreateAndSet(withId, VersionColumn(cls, vm), VersionCell(next))
  }

  /** The identity step of insert: a datastore identity's key cell set, or the row as it is. */
  function WithIdentity(cls: ClassMeta, obj: ObjState, written: Row): Result<Row>
  {
    if cls.identity.Datastore? then
      var c :- IdCell(obj.datastoreKey);
      Success(written[cls.datastoreIdColumn := c])
    else Success(written)
  }

  /**
   * `insertObject`.  An object of application or datastore identity that is
   * already in the sheet is refused.  The row index is the active-row count
   * (0 for a sheet that does not exist yet and is created).
   */
  function Insert(sheets: map<string, Sheet>, cls: ClassMeta, env: Env, obj: ObjState, next: Value): (r: Result<map<string, Sheet>>)
    requires cls.Valid()
    ensures !cls.identity.Nondurable? && ExcelUtils.RowNumber(sheets, cls, obj, false) >= 0 ==> r == Failure(DuplicateIdentity)
    ensures r.Success? ==> r.value.Keys == sheets.Keys + {cls.table}
    ensures r.Success? ==> forall t :: t in sheets && t != cls.table ==> r.value[t] == sheets[t]
    ensures r.Success? ==>
              var s, s' := SheetOrNew(sheets, cls.table), r.value[cls.table];
              var n := ActiveRows(s, ExcelUtils.ActivityColumns(cls));
              |s'| == (if n < |s| then |s| else n + 1) && s'[n].Some? &&
              forall j :: 0 <= j < |s'| && j != n ==> s'[j] == GetRow(s, j)
  {
    if !cls.identity.Nondurable? && ExcelUtils.RowNumber(sheets, cls, obj, false) >= 0 then Failure(DuplicateIdentity)
    else
      var rowNum :- ExcelUtils.RowCount(sheets, cls);
      assert rowNum == ActiveRows(SheetOrNew(sheets, cls.table), ExcelUtils.ActivityColumns(cls));
      InsertAtRow(sheets, cls, env, obj, next, rowNum)
  }

  /** The tail of insert: the object's row written at `rowNum` of the class's sheet (created when missing). */
  function InsertAtRow(sheets: map<string, Sheet>, cls: ClassMeta, env: Env, obj: ObjState, next: Value, rowNum: nat): Result<map<string, Sheet>>
    requires cls.Valid()
  {
    var sheet := SheetOrNew(sheets, cls.table);
    var row :- InsertedRow(cls, env, obj, next, RowOrNew(sheet, rowNum));
    Success(sheets[cls.table := PutRow(sheet, rowNum, row)])
  }

  /** The active-row count of the class's sheet, or 0 when there is none: where insert writes. */
  function InsertIndex(sheets: map<string, Sheet>, cls: ClassMeta): nat
    requires cls.Valid()
  {
    ActiveRows(SheetOrNew(sheets, cls.table), ExcelUtils.ActivityColumns(cls))
  }

  /**
   * On a compact sheet (the active rows first), an insert whose row is
   * active keeps the sheet compact and adds exactly one active row.
   */
  lemma InsertKeepsCompact(sheets: map<string, Sheet>, cls: ClassMeta, env: Env, obj: ObjState, next: Value)
    requires cls.Valid() && Insert(sheets, cls, env, obj, next).Success?
    requires var cols, s := ExcelUtils.ActivityColumns(cls), SheetOrNew(sheets, cls.table);
             PrefixActive(s, cols, ActiveRows(s, cols))
    requires var s' := Insert(sheets, cls, env, obj, next).value[cls.table];
             HasCells(s'[InsertIndex(sheets, cls)].value, ExcelUtils.ActivityColumns(cls))
    ensures var cols := ExcelUtils.ActivityColumns(cls);
            var s' := Insert(sheets, cls, env, obj, next).value[cls.table];
            PrefixActive(s', cols, InsertIndex(sheets, cls) + 1) &&
            ActiveRows(s', cols) == ActiveRows(SheetOrNew(sheets, cls.table), cols) + 1
  {
    var cols, s := ExcelUtils.ActivityColumns(cls), SheetOrNew(sheets, cls.table);
    var n := ExcelUtils.RowCount(sheets, cls).value;
    var row := InsertedRow(cls, env, obj, next, RowOrNew(s, n)).value;
    assert Insert(sheets, cls, env, obj, next).value[cls.table] == PutRow(s, n, row);
    InsertAtCountKeepsPrefix(s, cols, n, row);
  }

  /** For datastore identity the inserted row is always active: it has its identity cell. */
  lemma DatastoreInsertedRowActive(sheets: map<string, Sheet>, cls: ClassMeta, env: Env, obj: ObjState, next: Value)
    requires cls.Valid() && cls.identity.Datastore? && Insert(sheets, cls, env, obj, next).Success?
    ensures var s' := Insert(sheets, cls, env, obj, next).value[cls.table];
            HasCells(s'[InsertIndex(sheets, cls)].value, ExcelUtils.ActivityColumns(cls))
  {
    var s := SheetOrNew(sheets, cls.table);
    var n := ExcelUtils.RowCount(sheets, cls).value;
    var row := InsertedRow(cls, env, obj, next, RowOrNew(s, n)).value;
    assert Insert(sheets, cls, env, obj, next).value[cls.table] == PutRow(s, n, row);
    assert GetCell(row, cls.datastoreIdColumn).Some?;
  }

  /**
   * Insert then locate: a datastore-identity object is found, after its
   * insert, at the row the insert wrote, provided its key is a `String` or
   * a `long` and the version cell is not the identity cell.
   */
  lemma InsertThenLocate(sheets: map<string, Sheet>, cls: ClassMeta, env: Env, obj: ObjState, next: Value)
    requires cls.Valid() && cls.identity.Datastore? && Insert(sheets, cls, env, obj, next).Success?
    requires obj.datastoreKey.VNum? ==> InLong(obj.datastoreKey.n)
    requires cls.version.Some? ==> VersionColumn(cls, cls.version.value) != cls.datastoreIdColumn
    ensures ExcelUtils.RowNumber(Insert(sheets, cls, env, obj, next).value, cls, obj, false) == InsertIndex(sheets, cls)
  {
    var row := InsertedAt(sheets, cls, env, obj, next);
    var s, n := SheetOrNew(sheets, cls.table), InsertIndex(sheets, cls);
    var crit := ExcelUtils.Criteria(cls, obj, false);
    IdCellMatches(obj.datastoreKey);
    assert RowMatches(row, crit);
    assert FirstMatch(s, crit) == -1;
    FoundAfterPut(s, n, row, crit);
  }

  /** A successful insert put the row it built at the insert index, having found no row of the object. */
  lemma InsertedAt(sheets: map<string, Sheet>, cls: ClassMeta, env: Env, obj: ObjState, next: Value) returns (row: Row)
    requires cls.Valid() && Insert(sheets, cls, env, obj, next).Success?
    ensures InsertedRow(cls, env, obj, next, RowOrNew(SheetOrNew(sheets, cls.table), InsertIndex(sheets, cls))) == Success(row)
    ensures Insert(sheets, cls, env, obj, next).value[cls.table] == PutRow(SheetOrNew(sheets, cls.table), InsertIndex(sheets, cls), row)
    ensures !cls.identity.Nondurable? ==> ExcelUtils.RowNumber(sheets, cls, obj, false) == -1
  {
    row := InsertedRow(cls, env, obj, next, RowOrNew(SheetOrNew(sheets, cls.table), InsertIndex(sheets, cls))).value;
  }

  /**
   * The inserted row holds every plain member that owns its column and does
   * not share it with the identity or version cell, as the object's value.
   */
  lemma InsertedRowReadsBack(cls: ClassMeta, env: Env, obj: ObjState, next: Value, base: Row, p: nat)
    requires cls.Valid() && InsertedRow(cls, env, obj, next, base).Success?
    requires PlainStored(cls, env, true, obj, p) && OwnColumn(cls, AllPositions(cls), p)
    requires cls.identity.Datastore? ==> cls.members[p].Column0() != cls.datastoreIdColumn
    requires cls.version.Some? ==> cls.members[p].Column0() != VersionColumn(cls, cls.version.value)
    ensures FetchFields.FetchObject(cls, env, InsertedRow(cls, env, obj, next, base).value, p) == Success((obj.Provide(p), false))
  {
    var all := AllPositions(cls);
    assert all[p] == p;
    var written := ProvideFields(cls, env, true, base, obj, all).value;
    ProvideFieldsReadsBack(cls, env, true, base, obj, all, p);
    var withId := WithIdentity(cls, obj, written).value;
    SameCellSameRead(cls, env, written, withId, p);
    SameCellSameRead(cls, env, withId, InsertedRow(cls, env, obj, next, base).value, p);
  }

  /**
   * Insert then fetch: after a successful insert, the row at the insert
   * index reads back, for every plain member that owns its column, the
   * value the object held.
   */
  lemma InsertThenFetchField(sheets: map<string, Sheet>, cls: ClassMeta, env: Env, obj: ObjState, next: Value, p: nat)
    requires cls.Valid() && Insert(sheets, cls, env, obj, next).Success?
    requires PlainStored(cls, env, true, obj, p) && OwnColumn(cls, AllPositions(cls), p)
    requires cls.identity.Datastore? ==> cls.members[p].Column0() != cls.datastoreIdColumn
    requires cls.version.Some? ==> cls.members[p].Column0() != VersionColumn(cls, cls.version.value)
    ensures var s' := Insert(sheets, cls, env, obj, next).value[cls.table];
            InsertIndex(sheets, cls) < |s'| && s'[InsertIndex(sheets, cls)].Some? &&
            FetchFields.FetchObject(cls, env, s'[InsertIndex(sheets, cls)].value, p) == Success((obj.Provide(p), false))
  {
    var row := InsertedAt(sheets, cls, env, obj, next);
    InsertedRowReadsBack(cls, env, obj, next, RowOrNew(SheetOrNew(sheets, cls.table), InsertIndex(sheets, cls)), p);
  }

  // ---- update ----------------------------------------------------------------------------

  /** The object, field list and version cell value of an update, after the version step. */
  function UpdatePlan(cls: ClassMeta, obj: ObjState, fields: seq<nat>, next: Value): (r: Result<(ObjState, seq<nat>, Option<Cell>)>)
    requires cls.Valid() && FieldsValid(cls, fields)
    ensures r.Success? ==> FieldsValid(cls, r.value.1)
    ensures cls.version.None? ==> r == Success((obj, fields, None))
  {
    match cls.version
    case None => Success((obj, fields, None))
    case Some(vm) =>
      var p :- VersionedUpdate(vm, obj, fields, next);
      assert forall i :: 0 <= i < |p.1| ==> p.1[i] in p.1;
      Success(p)
  }

  /** The row update works on: the one that matches the object's original values. */
  function UpdateIndex(sheets: map<string, Sheet>, cls: ClassMeta, target: ObjState): int
    requires cls.Valid()
  {
    ExcelUtils.RowNumber(sheets, cls, target, true)
  }

  /** The located row after an update: the planned fields written, then the existing version cell set. */
  function UpdatedRow(cls: ClassMeta, env: Env, row: Row, plan: (ObjState, seq<nat>, Option<Cell>)): Result<Row>
    requires cls.Valid() && FieldsValid(cls, plan.1)
  {
    var written :- ProvideFields(cls, env, false, row, plan.0, plan.1);
    if cls.version.Some? then SetExisting(written, VersionColumn(cls, cls.version.value), plan.2)
    else Success(written)
  }

  /**
   * `updateObject`: the version step, the row located by original values
   * (a missing row is a datastore error), the fields through the field
   * manager, then the existing version cell set to the next version.
   */
  function Update(sheets: map<string, Sheet>, cls: ClassMeta, env: Env, obj: ObjState, fields: seq<nat>, next: Value): (r: Result<map<string, Sheet>>)
    requires cls.Valid() && FieldsValid(cls, fields)
    ensures cls.table !in sheets ==> r == Failure(SheetNotFound(cls.table))
    ensures cls.table in sheets && UpdatePlan(cls, obj, fields, next).Success? &&
            GetRow(sheets[cls.table], UpdateIndex(sheets, cls, UpdatePlan(cls, obj, fields, next).value.0)).None? ==>
              r == Failure(RowNotFound)
    ensures r.Success? ==> r.value.Keys == sheets.Keys && forall t :: t in sheets && t != cls.table ==> r.value[t] == sheets[t]
    ensures r.Success? ==>
              UpdatePlan(cls, obj, fields, next).Success? &&
              var i := UpdateIndex(sheets, cls, UpdatePlan(cls, obj, fields, next).value.0);
              var s, s' := sheets[cls.table], r.value[cls.table];
              |s'| == |s| && 0 <= i < |s| && s'[i].Some? && forall j :: 0 <= j < |s| && j != i ==> s'[j] == s[j]
  {
    var sheet :- ExcelUtils.SheetForClass(sheets, cls);
    var plan :- UpdatePlan(cls, obj, fields, next);
    var i := UpdateIndex(sheets, cls, plan.0);
    var row :- if GetRow(sheet, i).Some? then Success(GetRow(sheet, i).value) else Failure(RowNotFound);
    var final :- UpdatedRow(cls, env, row, plan);
    Success(sheets[cls.table := sheet[i := Some(final)]])
  }

  /**
   * Update then fetch: the version a successful update writes (a `long` or
   * a timestamp, not narrowed to `int`) is what the row's version cell
   * reads back.
   */
  lemma UpdateWritesVersion(sheets: map<string, Sheet>, cls: ClassMeta, env: Env, obj: ObjState, fields: seq<nat>, next: Value)
    requires cls.Valid() && FieldsValid(cls, fields) && Update(sheets, cls, env, obj, fields, next).Success?
    requires cls.version.Some? && VersionOfStrategy(cls.version.value.strategy, next)
    requires !(cls.version.value.field.Some? && cls.version.value.fieldIsInt)
    ensures var i := UpdateIndex(sheets, cls, UpdatePlan(cls, obj, fields, next).value.0);
            var s' := Update(sheets, cls, env, obj, fields, next).value[cls.table];
            VersionRead(cls.version.value.strategy, s'[i].value, VersionColumn(cls, cls.version.value)) == Success(Some(next))
  {
    var plan := UpdatePlan(cls, obj, fields, next).value;
    assert plan.2 == VersionCell(next);
    var final := UpdatedAt(sheets, cls, env, obj, fields, next);
    var i := UpdateIndex(sheets, cls, plan.0);
    UpdatedVersion(cls, env, sheets[cls.table][i].value, plan, final, next);
  }

  /** A successful update put the row it built where the search found the object. */
  lemma UpdatedAt(sheets: map<string, Sheet>, cls: ClassMeta, env: Env, obj: ObjState, fields: seq<nat>, next: Value) returns (final: Row)
    requires cls.Valid() && FieldsValid(cls, fields) && Update(sheets, cls, env, obj, fields, next).Success?
    ensures cls.table in sheets && UpdatePlan(cls, obj, fields, next).Success?
    ensures var i := UpdateIndex(sheets, cls, UpdatePlan(cls, obj, fields, next).value.0);
            i < |sheets[cls.table]| && sheets[cls.table][i].Some? &&
            UpdatedRow(cls, env, sheets[cls.table][i].value, UpdatePlan(cls, obj, fields, next).value) == Success(final) &&
            Update(sheets, cls, env, obj, fields, next).value[cls.table][i] == Some(final)
  {
    var plan := UpdatePlan(cls, obj, fields, next).value;
    var i := UpdateIndex(sheets, cls, plan.0);
    final := UpdatedRow(cls, env, sheets[cls.table][i].value, plan).value;
  }

  /** The updated row holds the next version in the version cell, where fetch reads it. */
  lemma UpdatedVersion(cls: ClassMeta, env: Env, row: Row, plan: (ObjState, seq<nat>, Option<Cell>), final: Row, next: Value)
    requires cls.Valid() && FieldsValid(cls, plan.1) && UpdatedRow(cls, env, row, plan) == Success(final)
    requires cls.version.Some? && VersionOfStrategy(cls.version.value.strategy, next) && plan.2 == VersionCell(next)
    ensures VersionRead(cls.version.value.strategy, final, VersionColumn(cls, cls.version.value)) == Success(Some(next))
  {
    var written := ProvideFields(cls, env, false, row, plan.0, plan.1).value;
    var col := VersionColumn(cls, cls.version.value);
    assert GetCell(written, col).Some?;
    assert final == written[col := VersionCell(next).value];
    VersionOfCell(cls.version.value.strategy, final, col, next);
  }

  /**
   * The updated row holds every plain member of the plan that owns its
   * column and is not the version cell's column, as the planned object's value.
   */
  lemma UpdatedRowReadsBack(cls: ClassMeta, env: Env, row: Row, plan: (ObjState, seq<nat>, Option<Cell>), p: nat)
    requires cls.Valid() && FieldsValid(cls, plan.1) && UpdatedRow(cls, env, row, plan).Success?
    requires p in plan.1 && PlainStored(cls, env, false, plan.0, p) && OwnColumn(cls, plan.1, p)
    requires cls.version.Some? ==> cls.members[p].Column0() != VersionColumn(cls, cls.version.value)
    ensures FetchFields.FetchObject(cls, env, UpdatedRow(cls, env, row, plan).value, p) == Success((plan.0.Provide(p), false))
  {
    var written := ProvideFields(cls, env, false, row, plan.0, plan.1).value;
    ProvideFieldsReadsBack(cls, env, false, row, plan.0, plan.1, p);
    SameCellSameRead(cls, env, written, UpdatedRow(cls, env, row, plan).value, p);
  }

  /**
   * Update then fetch: after a successful update, the located row reads
   * back, for every plain member of the update that owns its column and is
   * not the version member, the object's value for it.
   */
  lemma UpdateThenFetchField(sheets: map<string, Sheet>, cls: ClassMeta, env: Env, obj: ObjState, fields: seq<nat>, next: Value, p: nat)
    requires cls.Valid() && FieldsValid(cls, fields) && Update(sheets, cls, env, obj, fields, next).Success?
    requires p in fields && PlainStored(cls, env, false, obj, p) && OwnColumn(cls, fields, p)
    requires cls.version.Some? ==> cls.members[p].Column0() != VersionColumn(cls, cls.version.value)
    requires cls.version.Some? && cls.version.value.field.Some? ==>
               var f := cls.version.value.field.value;
               p != f && cls.members[p].Column0() !in cls.members[f].columns
    ensures var i := UpdateIndex(sheets, cls, UpdatePlan(cls, obj, fields, next).value.0);
            var s' := Update(sheets, cls, env, obj, fields, next).value[cls.table];
            0 <= i < |s'| && s'[i].Some? &&
            FetchFields.FetchObject(cls, env, s'[i].value, p) == Success((obj.Provide(p), false))
  {
    var plan := UpdatePlan(cls, obj, fields, next).value;
    var final := UpdatedAt(sheets, cls, env, obj, fields, next);
    var i := UpdateIndex(sheets, cls, plan.0);
    PlanKeepsOwnColumn(cls, obj, fields, next, p);
    UpdatedRowReadsBack(cls, env, sheets[cls.table][i].value, plan, p);
  }

  /** The version step keeps a member other than the version member, with its value and its own column. */
  lemma PlanKeepsOwnColumn(cls: ClassMeta, obj: ObjState, fields: seq<nat>, next: Value, p: nat)
    requires cls.Valid() && FieldsValid(cls, fields) && UpdatePlan(cls, obj, fields, next).Success?
    requires p in fields && p < |cls.members| && OwnColumn(cls, fields, p)
    requires cls.version.Some? && cls.version.value.field.Some? ==>
               var f := cls.version.value.field.value;
               p != f && cls.members[p].Column0() !in cls.members[f].columns
    ensures var plan := UpdatePlan(cls, obj, fields, next).value;
            p in plan.1 && plan.0.Provide(p) == obj.Provide(p) && OwnColumn(cls, plan.1, p)
  {
    var plan := UpdatePlan(cls, obj, fields, next).value;
    assert plan.0.Provide(p) == obj.Provide(p);
    assert p in plan.1;
    assert OwnColumn(cls, plan.1, p) by {
      forall j | 0 <= j < |plan.1| && plan.1[j] != p
        ensures cls.members[p].Column0() !in cls.members[plan.1[j]].columns
      {
        assert plan.1[j] in plan.1;
        if plan.1[j] !in fields {
          assert cls.version.Some? && cls.version.value.field == Some(plan.1[j]);
        } else {
          var k :| 0 <= k < |fields| && fields[k] == plan.1[j];
        }
      }
    }
  }

  // ---- delete ----------------------------------------------------------------------------

  /**
   * `deleteObject`: an object that is not found is refused; in an XLS
   * workbook the last row keeps its place with its cells removed; any other
   * row is removed and the rows below move up.
   */
  function Delete(sheets: map<string, Sheet>, cls: ClassMeta, obj: ObjState, xls: bool): (r: Result<map<string, Sheet>>)
    requires cls.Valid()
    ensures cls.table !in sheets ==> r == Failure(SheetNotFound(cls.table))
    ensures cls.table in sheets && ExcelUtils.RowNumber(sheets, cls, obj, false) < 0 ==> r == Failure(ObjectNotFound)
    ensures r.Success? ==> r.value.Keys == sheets.Keys && forall t :: t in sheets && t != cls.table ==> r.value[t] == sheets[t]
  {
    var sheet :- ExcelUtils.SheetForClass(sheets, cls);
    var i := ExcelUtils.RowNumber(sheets, cls, obj, false);
    if i < 0 then Failure(ObjectNotFound)
    else if xls && LastRowNum(sheet) == i then Success(sheets[cls.table := ClearRow(sheet, i)])
    else Success(sheets[cls.table := RemoveRow(sheet, i)])
  }

  /**
   * What delete does to the sheet: the XLS last row is emptied and the
   * sheet keeps its rows; otherwise the row is taken out and every later
   * row moves up by exactly one.
   */
  lemma DeleteClearsOrShifts(sheets: map<string, Sheet>, cls: ClassMeta, obj: ObjState, xls: bool)
    requires cls.Valid() && Delete(sheets, cls, obj, xls).Success?
    ensures var s, s' := sheets[cls.table], Delete(sheets, cls, obj, xls).value[cls.table];
            var i := ExcelUtils.RowNumber(sheets, cls, obj, false);
            0 <= i < |s| &&
            (xls && LastRowNum(s) == i ==>
               s' == s[i := Some(map[])] && LastRowNum(s') == LastRowNum(s) && PhysicalRows(s') == PhysicalRows(s)) &&
            (!(xls && LastRowNum(s) == i) ==> s' == s[..i] + s[i + 1..] + [None])
  {
    var s := sheets[cls.table];
    var i := ExcelUtils.RowNumber(sheets, cls, obj, false);
    if xls && LastRowNum(s) == i {
      ClearRowKeepsRows(s, i);
    } else {
      RemoveRowShiftsUp(s, i);
    }
  }

  /**
   * On a compact sheet, deleting an active row keeps the sheet compact with
   * one active row fewer, on both paths, so the next insert writes at the
   * first free row.
   */
  lemma DeleteKeepsCompact(sheets: map<string, Sheet>, cls: ClassMeta, obj: ObjState, xls: bool)
    requires cls.Valid() && Delete(sheets, cls, obj, xls).Success?
    requires var cols, s := ExcelUtils.ActivityColumns(cls), sheets[cls.table];
             |cols| > 0 && PrefixActive(s, cols, ActiveRows(s, cols)) &&
             ActiveAt(s, ExcelUtils.RowNumber(sheets, cls, obj, false), cols)
    ensures var cols, s := ExcelUtils.ActivityColumns(cls), sheets[cls.table];
            var s' := Delete(sheets, cls, obj, xls).value[cls.table];
            PrefixActive(s', cols, ActiveRows(s, cols) - 1) && ActiveRows(s', cols) == ActiveRows(s, cols) - 1
  {
    var cols, s := ExcelUtils.ActivityColumns(cls), sheets[cls.table];
    var i := ExcelUtils.RowNumber(sheets, cls, obj, false);
    var n := ActiveRows(s, cols);
    if xls && LastRowNum(s) == i {
      ClearLastKeepsPrefix(s, cols, n, i);
    } else {
      RemoveKeepsPrefix(s, cols, n, i);
    }
  }

  /** The row a datastore-identity search finds has its identity cell, so it is active. */
  lemma DatastoreLocatedRowActive(sheets: map<string, Sheet>, cls: ClassMeta, obj: ObjState)
    requires cls.Valid() && cls.identity.Datastore? && ExcelUtils.RowNumber(sheets, cls, obj, false) >= 0
    ensures ActiveAt(sheets[cls.table], ExcelUtils.RowNumber(sheets, cls, obj, false), ExcelUtils.ActivityColumns(cls))
  {
    var i := ExcelUtils.RowNumber(sheets, cls, obj, false);
    var crit := ExcelUtils.Criteria(cls, obj, false);
    assert CellMatches(GetCell(sheets[cls.table][i].value, crit[0].column), crit[0].jtype, crit[0].value);
  }

  /**
   * Delete then locate: when the deleted row was the only one that matched,
   * and the search compares at least one cell, the object is no longer found.
   */
  lemma DeleteThenNotFound(sheets: map<string, Sheet>, cls: ClassMeta, obj: ObjState, xls: bool)
    requires cls.Valid() && Delete(sheets, cls, obj, xls).Success?
    requires |ExcelUtils.Criteria(cls, obj, false)| > 0
    requires var s, i := sheets[cls.table], ExcelUtils.RowNumber(sheets, cls, obj, false);
             forall j :: 0 <= j < |s| && j != i ==> !MatchAt(s, j, ExcelUtils.Criteria(cls, obj, false))
    ensures ExcelUtils.RowNumber(Delete(sheets, cls, obj, xls).value, cls, obj, false) == -1
  {
    var s, i := sheets[cls.table], ExcelUtils.RowNumber(sheets, cls, obj, false);
    LostAfterDelete(s, i, ExcelUtils.Criteria(cls, obj, false));
  }

  // ---- fetch and locate ------------------------------------------------------------------

  /** The fields the fetch manager reads from the row; embedded single-valued relations are not among them. */
  predicate Fetchable(cls: ClassMeta, fields: seq<nat>)
    requires FieldsValid(cls, fields)
  {
    forall i :: 0 <= i < |fields| ==>
      !(StoreFields.EmbeddedRelation(cls.members[fields[i]]) && cls.members[fields[i]].relation.SingleValued?)
  }

  /** `op.replaceFields(fields, new FetchFieldManager(...))`: each field's value read from the row. */
  function FetchEach(cls: ClassMeta, env: Env, row: Row, fields: seq<nat>): (r: Result<seq<Value>>)
    requires cls.Valid() && FieldsValid(cls, fields) && Fetchable(cls, fields)
    ensures r.Success? ==> |r.value| == |fields|
    ensures r.Success? ==> forall i :: 0 <= i < |fields| ==>
              FetchFields.FetchObject(cls, env, row, fields[i]).Success? && FetchFields.FetchObject(cls, env, row, fields[i]).value.0 == r.value[i]
    decreases |fields|
  {
    if |fields| == 0 then Success([])
    else
      var init :- FetchEach(cls, env, row, fields[..|fields| - 1]);
      var last :- FetchFields.FetchObject(cls, env, row, fields[|fields| - 1]);
      assert forall i :: 0 <= i < |init| ==> fields[..|fields| - 1][i] == fields[i];
      FetchEachSnoc(cls, env, row, fields, init, last);
      Success(init + [last.0])
  }

  /** The values read for all but the last field, then the last one's: each field's value in its place. */
  lemma FetchEachSnoc(cls: ClassMeta, env: Env, row: Row, fields: seq<nat>, init: seq<Value>, last: (Value, bool))
    requires cls.Valid() && FieldsValid(cls, fields) && Fetchable(cls, fields) && |fields| > 0 && |init| == |fields| - 1
    requires forall i :: 0 <= i < |init| ==>
               FetchFields.FetchObject(cls, env, row, fields[i]).Success? &&
               FetchFields.FetchObject(cls, env, row, fields[i]).value.0 == init[i]
    requires FetchFields.FetchObject(cls, env, row, fields[|fields| - 1]) == Success(last)
    ensures forall i :: 0 <= i < |fields| ==>
              FetchFields.FetchObject(cls, env, row, fields[i]).Success? &&
              FetchFields.FetchObject(cls, env, row, fields[i]).value.0 == (init + [last.0])[i]
  {
  }

  /**
   * `fetchObject`: an object that is not found is refused; the fields are
   * read from its row and, when the object has no version yet, the version
   * cell gives it one.
   */
  function Fetch(sheets: map<string, Sheet>, cls: ClassMeta, env: Env, obj: ObjState, fields: seq<nat>): (r: Result<(seq<Value>, Option<Value>)>)
    requires cls.Valid() && FieldsValid(cls, fields) && Fetchable(cls, fields)
    ensures cls.table !in sheets ==> r == Failure(SheetNotFound(cls.table))
    ensures cls.table in sheets && ExcelUtils.RowNumber(sheets, cls, obj, false) < 0 ==> r == Failure(ObjectNotFound)
    ensures r.Success? ==> |r.value.0| == |fields|
    ensures r.Success? && (cls.version.None? || obj.txVersion.Some?) ==> r.value.1.None?
  {
    var sheet :- ExcelUtils.SheetForClass(sheets, cls);
    var i := ExcelUtils.RowNumber(sheets, cls, obj, false);
    if i < 0 then Failure(ObjectNotFound)
    else
      var row := sheet[i].value;
      var values :- FetchEach(cls, env, row, fields);
      var version :- if cls.version.Some? && obj.txVersion.None? then
                       VersionRead(cls.version.value.strategy, row, VersionColumn(cls, cls.version.value))
                     else Success(None);
      Success((values, version))
  }

  /**
   * Insert then fetch: an object of datastore identity fetched without a
   * version of its own after its insert gets the version the insert wrote.
   */
  lemma InsertThenFetchVersion(sheets: map<string, Sheet>, cls: ClassMeta, env: Env, obj: ObjState, next: Value, fields: seq<nat>)
    requires cls.Valid() && cls.identity.Datastore? && FieldsValid(cls, fields) && Fetchable(cls, fields)
    requires Insert(sheets, cls, env, obj, next).Success?
    requires obj.datastoreKey.VNum? ==> InLong(obj.datastoreKey.n)
    requires cls.version.Some? && VersionColumn(cls, cls.version.value) != cls.datastoreIdColumn
    requires VersionOfStrategy(cls.version.value.strategy, next) && obj.txVersion.None?
    requires Fetch(Insert(sheets, cls, env, obj, next).value, cls, env, obj, fields).Success?
    ensures Fetch(Insert(sheets, cls, env, obj, next).value, cls, env, obj, fields).value.1 == Some(next)
  {
    InsertThenLocate(sheets, cls, env, obj, next);
    var row := InsertedAt(sheets, cls, env, obj, next);
    var after := Insert(sheets, cls, env, obj, next).value;
    FetchVersionAt(after, cls, env, obj, fields, row);
    InsertedVersion(cls, env, obj, next, RowOrNew(SheetOrNew(sheets, cls.table), InsertIndex(sheets, cls)), row);
  }

  /** The row insert builds reads back, at the version column, the version it was given. */
  lemma InsertedVersion(cls: ClassMeta, env: Env, obj: ObjState, next: Value, start: Row, row: Row)
    requires cls.Valid() && InsertedRow(cls, env, obj, next, start) == Success(row)
    requires cls.version.Some? && VersionOfStrategy(cls.version.value.strategy, next)
    ensures VersionRead(cls.version.value.strategy, row, VersionColumn(cls, cls.version.value)) == Success(Some(next))
  {
    var col := VersionColumn(cls, cls.version.value);
    assert col in row && row[col] == VersionCell(next).value;
    VersionOfCell(cls.version.value.strategy, row, col, next);
  }

  /** Fetch of a located object without a version reads the version from the row found. */
  lemma FetchVersionAt(sheets: map<string, Sheet>, cls: ClassMeta, env: Env, obj: ObjState, fields: seq<nat>, row: Row)
    requires cls.Valid() && FieldsValid(cls, fields) && Fetchable(cls, fields)
    requires ExcelUtils.RowNumber(sheets, cls, obj, false) >= 0
    requires sheets[cls.table][ExcelUtils.RowNumber(sheets, cls, obj, false)] == Some(row)
    requires cls.version.Some? && obj.txVersion.None? && Fetch(sheets, cls, env, obj, fields).Success?
    ensures Fetch(sheets, cls, env, obj, fields).value.1 ==
            VersionRead(cls.version.value.strategy, row, VersionColumn(cls, cls.version.value)).value
  {
  }

  /** `locateObject`: normal return exactly when some row matches the object. */
  function Locate(sheets: map<string, Sheet>, cls: ClassMeta, obj: ObjState): (r: Outcome)
    requires cls.Valid()
    ensures r == Done <==>
              cls.table in sheets &&
              exists j :: 0 <= j < |sheets[cls.table]| && MatchAt(sheets[cls.table], j, ExcelUtils.Criteria(cls, obj, false))
    ensures r != Done ==> r == Fail(ObjectNotFound)
  {
    if ExcelUtils.RowNumber(sheets, cls, obj, false) >= 0 then Done else Fail(ObjectNotFound)
  }

  // ---- the handler's methods ----------------------------------------------------------------

  /** `locateObject` over the workbook. */
  method LocateObject(wb: Workbook, cls: ClassMeta, obj: ObjState) returns (r: Outcome)
    requires cls.Valid()
    ensures r == Locate(wb.sheets, cls, obj)
  {
    var rownum := ExcelUtils.GetRowNumber(wb.sheets, cls, obj, false);
    if rownum >= 0 {
      return Done;
    }
    return Fail(ObjectNotFound);
  }

  /** The inserted row built as insert builds it: the field manager, then the identity and version cells. */
  method WriteInsertedRow(cls: ClassMeta, env: Env, obj: ObjState, next: Value, start: Row) returns (r: Result<Row>)
    requires cls.Valid()
    ensures r == InsertedRow(cls, env, obj, next, start)
  {
    var written := ProvideFieldsTo(cls, env, true, start, obj, AllPositions(cls));
    if written.Failure? {
      return Failure(written.fault);
    }
    r := WriteKeyAndVersion(cls, env, obj, next, start, written.value);
  }

  /** The identity cell, then the version cell, written into the row the fields were written to. */
  method WriteKeyAndVersion(cls: ClassMeta, env: Env, obj: ObjState, next: Value, start: Row, written: Row) returns (r: Result<Row>)
    requires cls.Valid() && ProvideFields(cls, env, true, start, obj, AllPositions(cls)) == Success(written)
    ensures r == InsertedRow(cls, env, obj, next, start)
  {
    var withId := WriteIdentityCell(cls, obj, written);
    if withId.Failure? {
      return withId;
    }
    if cls.version.Some? {
      r := CreateAndSet(withId.value, VersionColumn(cls, cls.version.value), VersionCell(next));
    } else {
      r := withId;
    }
  }

  /** The datastore identity's key cell, set in the written row. */
  method WriteIdentityCell(cls: ClassMeta, obj: ObjState, written: Row) returns (r: Result<Row>)
    ensures r == WithIdentity(cls, obj, written)
  {
    r := Success(written);
    if cls.identity.Datastore? {
      var idCell := IdCell(obj.datastoreKey);
      if idCell.Failure? {
        return Failure(idCell.fault);
      }
      r := Success(written[cls.datastoreIdColumn := idCell.value]);
    }
  }

  /** `insertObject` over the workbook. */
  method InsertObject(wb: Workbook, cls: ClassMeta, env: Env, obj: ObjState, next: Value) returns (r: Outcome)
    requires cls.Valid()
    modifies wb
    ensures Applied(r, wb.sheets, old(wb.sheets), Insert(old(wb.sheets), cls, env, obj, next))
  {
    if !cls.identity.Nondurable? {
      var located := LocateObject(wb, cls, obj);
      if located.Done? {
        return Fail(DuplicateIdentity);
      }
    }
    var inserted := AppendObjectRow(wb.sheets, cls, env, obj, next);
    if inserted.Failure? {
      return Fail(inserted.fault);
    }
    wb.sheets := inserted.value;
    return Done;
  }

  /** The part of insert after the duplicate check: the row count, the row written, the row put. */
  method AppendObjectRow(sheets: map<string, Sheet>, cls: ClassMeta, env: Env, obj: ObjState, next: Value)
      returns (r: Result<map<string, Sheet>>)
    requires cls.Valid() && (cls.identity.Nondurable? || ExcelUtils.RowNumber(sheets, cls, obj, false) < 0)
    ensures r == Insert(sheets, cls, env, obj, next)
  {
    var rowNum := 0;
    if cls.table in sheets {
      var count := ExcelUtils.NumberOfRows(sheets, cls);
      if count.Failure? {
        return Failure(count.fault);
      }
      rowNum := count.value;
    }
    InsertIsAtRow(sheets, cls, env, obj, next, rowNum);
    r := PutInsertedRow(sheets, cls, env, obj, next, rowNum);
  }

  /** An object not yet in the sheet is inserted at the row count. */
  lemma InsertIsAtRow(sheets: map<string, Sheet>, cls: ClassMeta, env: Env, obj: ObjState, next: Value, rowNum: nat)
    requires cls.Valid() && (cls.identity.Nondurable? || ExcelUtils.RowNumber(sheets, cls, obj, false) < 0)
    requires ExcelUtils.RowCount(sheets, cls) == Success(rowNum)
    ensures Insert(sheets, cls, env, obj, next) == InsertAtRow(sheets, cls, env, obj, next, rowNum)
  {
  }

  /** Writes the object's row and puts it at `rowNum` of the class's sheet. */
  method PutInsertedRow(sheets: map<string, Sheet>, cls: ClassMeta, env: Env, obj: ObjState, next: Value, rowNum: nat)
      returns (r: Result<map<string, Sheet>>)
    requires cls.Valid()
    ensures r == InsertAtRow(sheets, cls, env, obj, next, rowNum)
  {
    var sheet := SheetOrNew(sheets, cls.table);
    var row := WriteInsertedRow(cls, env, obj, next, RowOrNew(sheet, rowNum));
    if row.Failure? {
      return Failure(row.fault);
    }
    return Success(sheets[cls.table := PutRow(sheet, rowNum, row.value)]);
  }

  /** The `vermd != null` block of update before the row is located. */
  method PlanVersion(cls: ClassMeta, obj: ObjState, fields: seq<nat>, next: Value) returns (r: Result<(ObjState, seq<nat>, Option<Cell>)>)
    requires cls.Valid() && FieldsValid(cls, fields)
    ensures r == UpdatePlan(cls, obj, fields, next)
  {
    if cls.version.None? {
      return Success((obj, fields, None));
    }
    var vm := cls.version.value;
    var verCell := VersionCell(next);
    if vm.field.None? {
      return Success((obj, fields, verCell));
    }
    var f := vm.field.value;
    var value := next;
    if vm.fieldIsInt {
      if !next.VNum? {
        return Failure(if next.VNull? then NullValue else ClassCast);
      }
      value := VNum(IntValue(next.n));
      verCell := None;
    }
    var updatedFieldNums := AppendVersionField(fields, f);
    return Success((WithField(obj, f, value), updatedFieldNums, verCell));
  }

  /** The located row written as update writes it: the field manager, then the version cell. */
  method WriteUpdatedRow(cls: ClassMeta, env: Env, row: Row, plan: (ObjState, seq<nat>, Option<Cell>)) returns (r: Result<Row>)
    requires cls.Valid() && FieldsValid(cls, plan.1)
    ensures r == UpdatedRow(cls, env, row, plan)
  {
    var written := ProvideFieldsTo(cls, env, false, row, plan.0, plan.1);
    if written.Failure? {
      return Failure(written.fault);
    }
    if cls.version.Some? {
      r := SetExisting(written.value, VersionColumn(cls, cls.version.value), plan.2);
    } else {
      r := written;
    }
  }

  /** `updateObject` over the workbook. */
  method UpdateObject(wb: Workbook, cls: ClassMeta, env: Env, obj: ObjState, fields: seq<nat>, next: Value) returns (r: Outcome)
    requires cls.Valid() && FieldsValid(cls, fields)
    modifies wb
    ensures Applied(r, wb.sheets, old(wb.sheets), Update(old(wb.sheets), cls, env, obj, fields, next))
  {
    if cls.table !in wb.sheets {
      return Fail(SheetNotFound(cls.table));
    }
    var plan := PlanVersion(cls, obj, fields, next);
    if plan.Failure? {
      return Fail(plan.fault);
    }
    var updated := RewriteObjectRow(wb.sheets, cls, env, obj, fields, next, plan.value);
    if updated.Failure? {
      return Fail(updated.fault);
    }
    wb.sheets := updated.value;
    return Done;
  }

  /** The part of update after the version step: the row located, written and put back. */
  method RewriteObjectRow(sheets: map<string, Sheet>, cls: ClassMeta, env: Env, obj: ObjState, fields: seq<nat>, next: Value,
                          plan: (ObjState, seq<nat>, Option<Cell>))
      returns (r: Result<map<string, Sheet>>)
    requires cls.Valid() && FieldsValid(cls, fields) && cls.table in sheets
    requires UpdatePlan(cls, obj, fields, next) == Success(plan)
    ensures r == Update(sheets, cls, env, obj, fields, next)
  {
    var rowIndex := ExcelUtils.GetRowNumber(sheets, cls, plan.0, true);
    var row := GetRow(sheets[cls.table], rowIndex);
    if row.None? {
      return Failure(RowNotFound);
    }
    UpdateIsAtRow(sheets, cls, env, obj, fields, next, plan, rowIndex, row.value);
    r := PutUpdatedRow(sheets, cls, env, plan, rowIndex, row.value);
  }

  /** Writes the updated fields into the located row and puts it back in its place. */
  method PutUpdatedRow(sheets: map<string, Sheet>, cls: ClassMeta, env: Env, plan: (ObjState, seq<nat>, Option<Cell>), rowIndex: int, row: Row)
      returns (r: Result<map<string, Sheet>>)
    requires cls.Valid() && FieldsValid(cls, plan.1) && cls.table in sheets && 0 <= rowIndex < |sheets[cls.table]|
    ensures r == UpdateAtRow(sheets, cls, env, plan, rowIndex, row)
  {
    var final := WriteUpdatedRow(cls, env, row, plan);
    if final.Failure? {
      return Failure(final.fault);
    }
    return Success(sheets[cls.table := sheets[cls.table][rowIndex := Some(final.value)]]);
  }

  /** The tail of update: the planned fields written into `row`, put back at `rowIndex`. */
  function UpdateAtRow(sheets: map<string, Sheet>, cls: ClassMeta, env: Env, plan: (ObjState, seq<nat>, Option<Cell>), rowIndex: int, row: Row)
    : Result<map<string, Sheet>>
    requires cls.Valid() && FieldsValid(cls, plan.1) && cls.table in sheets && 0 <= rowIndex < |sheets[cls.table]|
  {
    var final :- UpdatedRow(cls, env, row, plan);
    Success(sheets[cls.table := sheets[cls.table][rowIndex := Some(final)]])
  }

  /** An update whose row is found is the planned fields written into that row. */
  lemma UpdateIsAtRow(sheets: map<string, Sheet>, cls: ClassMeta, env: Env, obj: ObjState, fields: seq<nat>, next: Value,
                      plan: (ObjState, seq<nat>, Option<Cell>), rowIndex: int, row: Row)
    requires cls.Valid() && FieldsValid(cls, fields) && cls.table in sheets
    requires UpdatePlan(cls, obj, fields, next) == Success(plan)
    requires rowIndex == UpdateIndex(sheets, cls, plan.0) && GetRow(sheets[cls.table], rowIndex) == Some(row)
    ensures FieldsValid(cls, plan.1) && 0 <= rowIndex < |sheets[cls.table]|
    ensures Update(sheets, cls, env, obj, fields, next) == UpdateAtRow(sheets, cls, env, plan, rowIndex, row)
  {
  }

  /** `deleteObject` over the workbook; `xls` is whether the store is the XLS one. */
  method DeleteObject(wb: Workbook, cls: ClassMeta, obj: ObjState, xls: bool) returns (r: Outcome)
    requires cls.Valid()
    modifies wb
    ensures Applied(r, wb.sheets, old(wb.sheets), Delete(old(wb.sheets), cls, obj, xls))
  {
    if cls.table !in wb.sheets {
      return Fail(SheetNotFound(cls.table));
    }
    var sheet := wb.sheets[cls.table];
    var rowId := ExcelUtils.GetRowNumber(wb.sheets, cls, obj, false);
    if rowId < 0 {
      return Fail(ObjectNotFound);
    }
    if xls && LastRowNum(sheet) == rowId {
      var cleared := RemoveAllCells(sheet[rowId].value);
      wb.sheets := wb.sheets[cls.table := sheet[rowId := Some(cleared)]];
    } else {
      wb.sheets := wb.sheets[cls.table := RemoveRow(sheet, rowId)];
    }
    return Done;
  }

  /** `fetchObject` over the workbook: the fields' values and the version read, if any. */
  method FetchObject(wb: Workbook, cls: ClassMeta, env: Env, obj: ObjState, fields: seq<nat>) returns (r: Result<(seq<Value>, Option<Value>)>)
    requires cls.Valid() && FieldsValid(cls, fields) && Fetchable(cls, fields)
    ensures r == Fetch(wb.sheets, cls, env, obj, fields)
  {
    if cls.table !in wb.sheets {
      return Failure(SheetNotFound(cls.table));
    }
    var sheet := wb.sheets[cls.table];
    var rowNumber := ExcelUtils.GetRowNumber(wb.sheets, cls, obj, false);
    if rowNumber < 0 {
      return Failure(ObjectNotFound);
    }
    var row := sheet[rowNumber].value;
    var values: seq<Value> := [];
    for i := 0 to |fields|
      invariant FetchEach(cls, env, row, fields[..i]) == Success(values)
    {
      assert fields[..i + 1][..i] == fields[..i];
      var v := FetchFields.FetchObject(cls, env, row, fields[i]);
      if v.Failure? {
        FetchEachFailureStays(cls, env, row, fields, i + 1);
        return Failure(v.fault);
      }
      values := values + [v.value.0];
    }
    assert fields[..|fields|] == fields;
    var version: Option<Value> := None;
    if cls.version.Some? && obj.txVersion.None? {
      var read := VersionRead(cls.version.value.strategy, row, VersionColumn(cls, cls.version.value));
      if read.Failure? {
        return Failure(read.fault);
      }
      version := read.value;
    }
    return Success((values, version));
  }

  /** Once a field's read fails, the whole fetch fails with its fault. */
  lemma {:induction false} FetchEachFailureStays(cls: ClassMeta, env: Env, row: Row, fields: seq<nat>, k: nat)
    requires cls.Valid() && FieldsValid(cls, fields) && Fetchable(cls, fields) && k <= |fields|
    requires FetchEach(cls, env, row, fields[..k]).Failure?
    ensures FetchEach(cls, env, row, fields) == FetchEach(cls, env, row, fields[..k])
    decreases |fields| - k
  {
    if k < |fields| {
      var init := fields[..|fields| - 1];
      assert init[..k] == fields[..k];
      assert FieldsValid(cls, init) && Fetchable(cls, init);
      FetchEachFailureStays(cls, env, row, init, k);
      FetchEachInitFails(cls, env, row, fields);
    } else {
      assert fields[..k] == fields;
    }
  }

  /** A failure of all but the last field is the failure of all of them. */
  lemma FetchEachInitFails(cls: ClassMeta, env: Env, row: Row, fields: seq<nat>)
    requires cls.Valid() && FieldsValid(cls, fields) && Fetchable(cls, fields) && |fields| > 0
    requires FetchEach(cls, env, row, fields[..|fields| - 1]).Failure?
    ensures FetchEach(cls, env, row, fields) == FetchEach(cls, env, row, fields[..|fields| - 1])
  {
  }
}
