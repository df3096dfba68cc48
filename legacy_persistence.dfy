/**
 * `ExcelPersistenceHandler` of the older tree.  The operations are those of
 * the current one; what differs is the column resolver (identity and
 * version cells at the resolver's slots -1 and -2, whatever the version
 * field), a row search that can itself fail, and the field managers.
 */
module LegacyPersistence {
  import opened Outcomes
  import opened Values
  import opened JavaNum
  import opened Cells
  import opened Mapping
  import opened LegacyMapping
  import opened RowAccounting
  import opened Bookkeeping
  import LegacyExcelUtils
  import StoreFields
  import LegacyStoreFields
  import LegacyFetchFields

  /** Every field number names a member. */
  predicate FieldsValid(cls: LegacyClass, fields: seq<nat>)
  {
    forall i :: 0 <= i < |fields| ==> fields[i] < |cls.members|
  }

  /** `cmd.getAllMemberPositions()`. */
  function AllPositions(cls: LegacyClass): (ps: seq<nat>)
    ensures |ps| == |cls.members| && forall i :: 0 <= i < |ps| ==> ps[i] == i
  {
    seq(|cls.members|, i => i)
  }

  /** `ExcelUtils.getSheetForClass` of the older tree: the sheet, or a datastore error. */
  function SheetForClass(sheets: map<string, Sheet>, cls: LegacyClass): (r: Result<Sheet>)
    ensures r.Success? <==> cls.table in sheets
    ensures r.Success? ==> r.value == sheets[cls.table]
    ensures r.Failure? ==> r.fault == SheetNotFound(cls.table)
  {
    if cls.table in sheets then Success(sheets[cls.table]) else Failure(SheetNotFound(cls.table))
  }

  // ---- provideFields -------------------------------------------------------------------

  /** Each field in turn handed to `storeObjectField` with the object's value for it. */
  function StoreEach(cls: LegacyClass, env: Env, insert: bool, row: Row, obj: ObjState, fields: seq<nat>): (r: Result<Row>)
    requires cls.Valid() && FieldsValid(cls, fields)
    decreases |fields|
  {
    if |fields| == 0 then Success(row)
    else
      var prev :- StoreEach(cls, env, insert, row, obj, fields[..|fields| - 1]);
      var p := fields[|fields| - 1];
      LegacyStoreFields.StoreFieldValue(cls, env, insert, prev, p, obj.Provide(p))
  }

  /** Once a field fails, the whole list fails with its fault. */
  lemma {:induction false} StoreEachFailureStays(cls: LegacyClass, env: Env, insert: bool, row: Row, obj: ObjState, fields: seq<nat>, k: nat)
    requires cls.Valid() && FieldsValid(cls, fields) && k <= |fields|
    requires StoreEach(cls, env, insert, row, obj, fields[..k]).Failure?
    ensures StoreEach(cls, env, insert, row, obj, fields) == StoreEach(cls, env, insert, row, obj, fields[..k])
    decreases |fields| - k
  {
    if k < |fields| {
      var init := fields[..|fields| - 1];
      assert init[..k] == fields[..k];
      assert FieldsValid(cls, init);
      StoreEachFailureStays(cls, env, insert, row, obj, init, k);
      StoreEachInitFails(cls, env, insert, row, obj, fields);
    } else {
      assert fields[..k] == fields;
    }
  }

  /** A failure of all but the last field is the failure of all of them. */
  lemma StoreEachInitFails(cls: LegacyClass, env: Env, insert: bool, row: Row, obj: ObjState, fields: seq<nat>)
    requires cls.Valid() && FieldsValid(cls, fields) && |fields| > 0
    requires StoreEach(cls, env, insert, row, obj, fields[..|fields| - 1]).Failure?
    ensures StoreEach(cls, env, insert, row, obj, fields) == StoreEach(cls, env, insert, row, obj, fields[..|fields| - 1])
  {
  }

  /** `op.provideFields(fields, new StoreFieldManager(op, row, insert))`: the key cells, then every field. */
  function ProvideFields(cls: LegacyClass, env: Env, insert: bool, row: Row, obj: ObjState, fields: seq<nat>): Result<Row>
    requires cls.Valid() && FieldsValid(cls, fields)
  {
    StoreEach(cls, env, insert, LegacyStoreFields.TableKeyCells(cls, row, false), obj, fields)
  }

  /** The same, with the field manager object and its `storeObjectField` calls. */
  method ProvideFieldsTo(cls: LegacyClass, env: Env, insert: bool, row: Row, obj: ObjState, fields: seq<nat>) returns (r: Result<Row>)
    requires cls.Valid() && FieldsValid(cls, fields)
    ensures r == ProvideFields(cls, env, insert, row, obj, fields)
  {
    var sfm := new LegacyStoreFields.LegacyStoreFieldManager(cls, env, row, insert, false);
    ghost var keyed := sfm.row;
    for i := 0 to |fields|
      invariant StoreEach(cls, env, insert, keyed, obj, fields[..i]) == Success(sfm.row)
    {
      var o := StoreOne(sfm, cls, env, insert, keyed, obj, fields, i);
      if o.Fail? {
        return Failure(o.fault);
      }
    }
    assert fields[..|fields|] == fields;
    return Success(sfm.row);
  }

  /** One pass of the field loop: `storeObjectField` of the `i`-th field. */
  method StoreOne(sfm: LegacyStoreFields.LegacyStoreFieldManager, cls: LegacyClass, env: Env, insert: bool, ghost keyed: Row, obj: ObjState, fields: seq<nat>, i: nat)
      returns (o: Outcome)
    requires cls.Valid() && FieldsValid(cls, fields) && i < |fields|
    requires sfm.cls == cls && sfm.env == env && sfm.insert == insert
    requires StoreEach(cls, env, insert, keyed, obj, fields[..i]) == Success(sfm.row)
    modifies sfm
    ensures o.Done? ==> StoreEach(cls, env, insert, keyed, obj, fields[..i + 1]) == Success(sfm.row)
    ensures o.Fail? ==> StoreEach(cls, env, insert, keyed, obj, fields) == Failure(o.fault)
  {
    assert fields[..i + 1][..i] == fields[..i];
    o := sfm.StoreObjectField(fields[i], obj.Provide(fields[i]));
    if o.Fail? {
      StoreEachFailureStays(cls, env, insert, keyed, obj, fields, i + 1);
    }
  }

  // ---- what the field writes leave in the row ------------------------------------------

  /**
   * A member the older codec carries unchanged: stored by this operation,
   * plain and in one column that the fetch resolver also gives it, holding
   * `null` or a value its class represents.
   */
  predicate PlainStored(cls: LegacyClass, env: Env, insert: bool, obj: ObjState, p: nat)
    requires cls.Valid()
  {
    p < |cls.members| && LegacyFetchFields.ColumnsAgree(cls, p) &&
    var m := cls.members[p].member;
    StoreFields.Storable(m, insert) && m.relation.NoRelation? && m.converter.None? && |m.columns| == 1 &&
    (obj.Provide(p).VNull? || LegacyFetchFields.LegacyRepresentable(m, obj.Provide(p), env))
  }

  /** No other field of `fields` writes the column member `p` is read from. */
  predicate OwnColumn(cls: LegacyClass, fields: seq<nat>, p: nat)
    requires cls.Valid() && FieldsValid(cls, fields) && p < |cls.members|
  {
    forall i :: 0 <= i < |fields| && fields[i] != p ==> cls.members[p].member.Column0() !in cls.members[fields[i]].member.columns
  }

  /** A member whose resolved column is its `Table` column reads the same from two rows that agree on it. */
  lemma SameCellSameRead(cls: LegacyClass, env: Env, a: Row, b: Row, p: nat)
    requires cls.Valid() && p < |cls.members| && LegacyFetchFields.ColumnsAgree(cls, p)
    requires cls.members[p].member.relation.NoRelation?
    requires var c := cls.members[p].member.Column0(); (c in a <==> c in b) && (c in a ==> a[c] == b[c])
    ensures LegacyFetchFields.FetchObject(cls, env, a, p) == LegacyFetchFields.FetchObject(cls, env, b, p)
  {
  }

  /**
   * After the field loop, every plain member among the fields that owns its
   * column reads back as the object's value for it.
   */
  lemma {:induction false} StoreEachReadsBack(cls: LegacyClass, env: Env, insert: bool, row: Row, obj: ObjState, fields: seq<nat>, p: nat)
    requires cls.Valid() && FieldsValid(cls, fields)
    requires p in fields && PlainStored(cls, env, insert, obj, p) && OwnColumn(cls, fields, p)
    requires StoreEach(cls, env, insert, row, obj, fields).Success?
    ensures LegacyFetchFields.FetchObject(cls, env, StoreEach(cls, env, insert, row, obj, fields).value, p) == Success(obj.Provide(p))
    decreases |fields|
  {
    var init, last := fields[..|fields| - 1], fields[|fields| - 1];
    assert FieldsValid(cls, init);
    var prev := StoreEach(cls, env, insert, row, obj, init).value;
    var after := StoreEach(cls, env, insert, row, obj, fields).value;
    assert LegacyStoreFields.StoreFieldValue(cls, env, insert, prev, last, obj.Provide(last)) == Success(after);
    if last == p {
      LegacyFetchFields.PlainFieldRoundTrip(cls, env, insert, prev, p, obj.Provide(p));
    } else {
      var k :| 0 <= k < |fields| && fields[k] == p;
      assert init[k] == p;
      assert OwnColumn(cls, init, p) by {
        forall i | 0 <= i < |init| && init[i] != p
          ensures cls.members[p].member.Column0() !in cls.members[init[i]].member.columns
        {
          assert init[i] == fields[i];
        }
      }
      StoreEachReadsBack(cls, env, insert, row, obj, init, p);
      assert cls.members[p].member.Column0() !in cls.members[last].member.columns;
      SameCellSameRead(cls, env, prev, after, p);
    }
  }

  // ---- insert ----------------------------------------------------------------------------

  /**
   * The row insert leaves: all fields, then the identity cell at the
   * resolver's slot -1 (created before the key is cast), then the version
   * cell at slot -2, each cell created when absent.
   */
  function InsertedRow(cls: LegacyClass, env: Env, obj: ObjState, next: Value, row: Row): (r: Result<Row>)
    requires cls.Valid()
    ensures r.Success? && cls.version.Some? ==>
              var col := LegacyExcelUtils.VersionColumn(cls);
              col >= 0 && col as nat in r.value && (VersionCell(next).Some? ==> r.value[col as nat] == VersionCell(next).value)
    ensures r.Success? && cls.identity.Datastore? &&
            (cls.version.Some? ==> LegacyExcelUtils.VersionColumn(cls) != LegacyExcelUtils.IdentityColumn(cls)) ==>
              var col := LegacyExcelUtils.IdentityColumn(cls);
              col >= 0 && IdCell(obj.datastoreKey).Success? && col as nat in r.value && r.value[col as nat] == IdCell(obj.datastoreKey).value
    ensures cls.identity.Datastore? && LegacyExcelUtils.IdentityColumn(cls) < 0 &&
            ProvideFields(cls, env, true, row, obj, AllPositions(cls)).Success? ==>
              r == Failure(InvalidColumnIndex(LegacyExcelUtils.IdentityColumn(cls)))
  {
    var written :- ProvideFields(cls, env, true, row, obj, AllPositions(cls));
    var withId :- WithIdentity(cls, obj, written);
    if cls.version.Some? then CreateAndSet(withId, LegacyExcelUtils.VersionColumn(cls), VersionCell(next))
    else Success(withId)
  }

  /** The identity step of insert: a datastore identity's cell created, then set to the key. */
  function WithIdentity(cls: LegacyClass, obj: ObjState, written: Row): Result<Row>
    requires cls.Valid()
  {
    if cls.identity.Datastore? then
      var idCol := LegacyExcelUtils.IdentityColumn(cls);
      var created :- CreateAndSet(written, idCol, None);
      var c :- IdCell(obj.datastoreKey);
      Success(created[idCol as nat := c])
    else Success(written)
  }

  /** The columns whose presence the older row count looks at, by identity kind. */
  function CountColumns(cls: LegacyClass): seq<int>
    requires cls.Valid()
  {
    match cls.identity
    case Application => LegacyExcelUtils.KeyColumns(cls)
    case Datastore => [LegacyExcelUtils.IdentityColumn(cls)]
    case Nondurable => [0]
  }

  /**
   * `insertObject`: a search that fails ends the insert; an object already
   * present is refused; the row index is the older row count (per key cell
   * for application identity), 0 for a sheet created now.
   */
  function Insert(sheets: map<string, Sheet>, cls: LegacyClass, env: Env, obj: ObjState, next: Value): (r: Result<map<string, Sheet>>)
    requires cls.Valid()
    ensures !cls.identity.Nondurable? && LegacyExcelUtils.RowNumber(sheets, cls, obj, false).Failure? ==>
              r == Failure(LegacyExcelUtils.RowNumber(sheets, cls, obj, false).fault)
    ensures (!cls.identity.Nondurable? && LegacyExcelUtils.RowNumber(sheets, cls, obj, false).Success? &&
             LegacyExcelUtils.RowNumber(sheets, cls, obj, false).value >= 0) ==> r == Failure(DuplicateIdentity)
    ensures r.Success? ==> r.value.Keys == sheets.Keys + {cls.table}
    ensures r.Success? ==> forall t :: t in sheets && t != cls.table ==> r.value[t] == sheets[t]
    ensures r.Success? ==>
              LegacyExcelUtils.RowCount(sheets, cls).Success? &&
              var s, s' := SheetOrNew(sheets, cls.table), r.value[cls.table];
              var n := LegacyExcelUtils.RowCount(sheets, cls).value;
              |s'| == (if n < |s| then |s| else n + 1) && s'[n].Some? &&
              forall j :: 0 <= j < |s'| && j != n ==> s'[j] == GetRow(s, j)
  {
    var found :- if cls.identity.Nondurable? then Success(-1) else LegacyExcelUtils.RowNumber(sheets, cls, obj, false);
    if found >= 0 then Failure(DuplicateIdentity)
    else
      var rowNum :- LegacyExcelUtils.RowCount(sheets, cls);
      InsertAtRow(sheets, cls, env, obj, next, rowNum)
  }

  /** The tail of insert: the object's row written at `rowNum` of the class's sheet (created when missing). */
  function InsertAtRow(sheets: map<string, Sheet>, cls: LegacyClass, env: Env, obj: ObjState, next: Value, rowNum: nat): Result<map<string, Sheet>>
    requires cls.Valid()
  {
    var sheet := SheetOrNew(sheets, cls.table);
    var row :- InsertedRow(cls, env, obj, next, RowOrNew(sheet, rowNum));
    Success(sheets[cls.table := PutRow(sheet, rowNum, row)])
  }

  /**
   * Insert then locate: a datastore-identity object whose identity column
   * is a real column, distinct from the version column, is found after its
   * insert at the row the insert wrote.
   */
  lemma InsertThenLocate(sheets: map<string, Sheet>, cls: LegacyClass, env: Env, obj: ObjState, next: Value)
    requires cls.Valid() && cls.identity.Datastore? && Insert(sheets, cls, env, obj, next).Success?
    requires obj.datastoreKey.VNum? ==> InLong(obj.datastoreKey.n)
    requires cls.version.Some? ==> LegacyExcelUtils.VersionColumn(cls) != LegacyExcelUtils.IdentityColumn(cls)
    ensures LegacyExcelUtils.RowNumber(Insert(sheets, cls, env, obj, next).value, cls, obj, false) ==
            Success(LegacyExcelUtils.RowCount(sheets, cls).value)
  {
    var n, row := InsertedAt(sheets, cls, env, obj, next);
    var s := SheetOrNew(sheets, cls.table);
    var crit := LegacyExcelUtils.Criteria(cls, obj, false).value;
    IdCellMatches(obj.datastoreKey);
    assert RowMatches(row, crit);
    assert FirstMatch(s, crit) == -1;
    FoundAfterPut(s, n, row, crit);
  }

  /** A successful insert put the row it built at the row count, having found no row of the object. */
  lemma InsertedAt(sheets: map<string, Sheet>, cls: LegacyClass, env: Env, obj: ObjState, next: Value) returns (n: nat, row: Row)
    requires cls.Valid() && Insert(sheets, cls, env, obj, next).Success?
    ensures LegacyExcelUtils.RowCount(sheets, cls) == Success(n)
    ensures InsertedRow(cls, env, obj, next, RowOrNew(SheetOrNew(sheets, cls.table), n)) == Success(row)
    ensures Insert(sheets, cls, env, obj, next).value[cls.table] == PutRow(SheetOrNew(sheets, cls.table), n, row)
    ensures !cls.identity.Nondurable? ==> LegacyExcelUtils.RowNumber(sheets, cls, obj, false) == Success(-1)
  {
    n := LegacyExcelUtils.RowCount(sheets, cls).value;
    row := InsertedRow(cls, env, obj, next, RowOrNew(SheetOrNew(sheets, cls.table), n)).value;
  }

  /**
   * For datastore identity, on a sheet whose rows with an identity cell come
   * first, insert keeps that shape and adds one such row.
   */
  lemma DatastoreInsertKeepsCompact(sheets: map<string, Sheet>, cls: LegacyClass, env: Env, obj: ObjState, next: Value)
    requires cls.Valid() && cls.identity.Datastore? && Insert(sheets, cls, env, obj, next).Success?
    requires var cols, s := CountColumns(cls), SheetOrNew(sheets, cls.table);
             PrefixActive(s, cols, ActiveRows(s, cols))
    ensures var cols := CountColumns(cls);
            var s' := Insert(sheets, cls, env, obj, next).value[cls.table];
            ActiveRows(s', cols) == ActiveRows(SheetOrNew(sheets, cls.table), cols) + 1 &&
            PrefixActive(s', cols, ActiveRows(s', cols))
  {
    var n, row := InsertedAt(sheets, cls, env, obj, next);
    DatastoreRowPut(sheets, cls, env, obj, next, n, row);
  }

  /** The row a datastore-identity insert writes, put at the row count: the sheet stays compact. */
  lemma DatastoreRowPut(sheets: map<string, Sheet>, cls: LegacyClass, env: Env, obj: ObjState, next: Value, n: nat, row: Row)
    requires cls.Valid() && cls.identity.Datastore?
    requires LegacyExcelUtils.RowCount(sheets, cls) == Success(n)
    requires InsertedRow(cls, env, obj, next, RowOrNew(SheetOrNew(sheets, cls.table), n)) == Success(row)
    requires var cols, s := CountColumns(cls), SheetOrNew(sheets, cls.table);
             PrefixActive(s, cols, ActiveRows(s, cols))
    ensures var cols, s := CountColumns(cls), SheetOrNew(sheets, cls.table);
            var s' := PutRow(s, n, row);
            ActiveRows(s', cols) == ActiveRows(s, cols) + 1 && PrefixActive(s', cols, ActiveRows(s', cols))
  {
    var cols, s := CountColumns(cls), SheetOrNew(sheets, cls.table);
    assert n == ActiveRows(s, cols) by {
      if cls.table !in sheets {
        assert s == [];
      }
    }
    assert GetCell(row, LegacyExcelUtils.IdentityColumn(cls)).Some?;
    InsertAtCountKeepsPrefix(s, cols, n, row);
  }

  /**
   * Insert then fetch: after a successful insert, the row at the row count
   * reads back, for every plain member that owns its column and does not
   * share it with the identity or version cell, the value the object held.
   */
  lemma InsertThenFetchField(sheets: map<string, Sheet>, cls: LegacyClass, env: Env, obj: ObjState, next: Value, p: nat)
    requires cls.Valid() && Insert(sheets, cls, env, obj, next).Success?
    requires PlainStored(cls, env, true, obj, p) && OwnColumn(cls, AllPositions(cls), p)
    requires cls.identity.Datastore? ==> cls.members[p].member.Column0() != LegacyExcelUtils.IdentityColumn(cls)
    requires cls.version.Some? ==> cls.members[p].member.Column0() != LegacyExcelUtils.VersionColumn(cls)
    ensures var n := LegacyExcelUtils.RowCount(sheets, cls).value;
            var s' := Insert(sheets, cls, env, obj, next).value[cls.table];
            n < |s'| && s'[n].Some? &&
            LegacyFetchFields.FetchObject(cls, env, s'[n].value, p) == Success(obj.Provide(p))
  {
    var n, row := InsertedAt(sheets, cls, env, obj, next);
    InsertedRowReadsBack(cls, env, obj, next, RowOrNew(SheetOrNew(sheets, cls.table), n), p);
  }

  /** The inserted row holds every such member as the object's value. */
  lemma InsertedRowReadsBack(cls: LegacyClass, env: Env, obj: ObjState, next: Value, base: Row, p: nat)
    requires cls.Valid() && InsertedRow(cls, env, obj, next, base).Success?
    requires PlainStored(cls, env, true, obj, p) && OwnColumn(cls, AllPositions(cls), p)
    requires cls.identity.Datastore? ==> cls.members[p].member.Column0() != LegacyExcelUtils.IdentityColumn(cls)
    requires cls.version.Some? ==> cls.members[p].member.Column0() != LegacyExcelUtils.VersionColumn(cls)
    ensures LegacyFetchFields.FetchObject(cls, env, InsertedRow(cls, env, obj, next, base).value, p) == Success(obj.Provide(p))
  {
    var all := AllPositions(cls);
    assert all[p] == p;
    var keyed := LegacyStoreFields.TableKeyCells(cls, base, false);
    var written := ProvideFields(cls, env, true, base, obj, all).value;
    StoreEachReadsBack(cls, env, true, keyed, obj, all, p);
    var withId := WithIdentity(cls, obj, written).value;
    SameCellSameRead(cls, env, written, withId, p);
    SameCellSameRead(cls, env, withId, InsertedRow(cls, env, obj, next, base).value, p);
  }

  // ---- update ----------------------------------------------------------------------------

  /** The object, field list and version cell value of an update, after the version step. */
  function UpdatePlan(cls: LegacyClass, obj: ObjState, fields: seq<nat>, next: Value): (r: Result<(ObjState, seq<nat>, Option<Cell>)>)
    requires cls.Valid() && FieldsValid(cls, fields)
    ensures r.Success? ==> FieldsValid(cls, r.value.1)
    ensures cls.version.None? ==> r == Success((obj, fields, None))
  {
    match cls.version
    case None => Success((obj, fields, None))
    case Some(lv) =>
      var p :- VersionedUpdate(lv.meta, obj, fields, next);
      assert forall i :: 0 <= i < |p.1| ==> p.1[i] in p.1;
      Success(p)
  }

  /** The located row after an update: the planned fields written, then the existing slot -2 cell set. */
  function UpdatedRow(cls: LegacyClass, env: Env, row: Row, plan: (ObjState, seq<nat>, Option<Cell>)): Result<Row>
    requires cls.Valid() && FieldsValid(cls, plan.1)
  {
    var written :- ProvideFields(cls, env, false, row, plan.0, plan.1);
    if cls.version.Some? then SetExisting(written, LegacyExcelUtils.VersionColumn(cls), plan.2)
    else Success(written)
  }

  /**
   * `updateObject`: the version step, the row located by original values
   * (a failed search ends the update, a missing row is a datastore error),
   * the fields, then the version cell.
   */
  function Update(sheets: map<string, Sheet>, cls: LegacyClass, env: Env, obj: ObjState, fields: seq<nat>, next: Value): (r: Result<map<string, Sheet>>)
    requires cls.Valid() && FieldsValid(cls, fields)
    ensures cls.table !in sheets ==> r == Failure(SheetNotFound(cls.table))
    ensures r.Success? ==> r.value.Keys == sheets.Keys && forall t :: t in sheets && t != cls.table ==> r.value[t] == sheets[t]
    ensures r.Success? ==>
              UpdatePlan(cls, obj, fields, next).Success? &&
              LegacyExcelUtils.RowNumber(sheets, cls, UpdatePlan(cls, obj, fields, next).value.0, true).Success? &&
              var i := LegacyExcelUtils.RowNumber(sheets, cls, UpdatePlan(cls, obj, fields, next).value.0, true).value;
              var s, s' := sheets[cls.table], r.value[cls.table];
              |s'| == |s| && 0 <= i < |s| && s'[i].Some? && forall j :: 0 <= j < |s| && j != i ==> s'[j] == s[j]
  {
    var sheet :- SheetForClass(sheets, cls);
    var plan :- UpdatePlan(cls, obj, fields, next);
    var i :- LegacyExcelUtils.RowNumber(sheets, cls, plan.0, true);
    var row :- if GetRow(sheet, i).Some? then Success(GetRow(sheet, i).value) else Failure(RowNotFound);
    var final :- UpdatedRow(cls, env, row, plan);
    Success(sheets[cls.table := sheet[i := Some(final)]])
  }

  /**
   * An update of a class with a surrogate version writes the next version
   * where fetch reads it back.
   */
  lemma UpdateWritesVersion(sheets: map<string, Sheet>, cls: LegacyClass, env: Env, obj: ObjState, fields: seq<nat>, next: Value)
    requires cls.Valid() && FieldsValid(cls, fields) && Update(sheets, cls, env, obj, fields, next).Success?
    requires cls.version.Some? && cls.version.value.meta.field.None? && VersionOfStrategy(cls.version.value.meta.strategy, next)
    ensures var i := LegacyExcelUtils.RowNumber(sheets, cls, obj, true).value;
            var s' := Update(sheets, cls, env, obj, fields, next).value[cls.table];
            VersionRead(cls.version.value.meta.strategy, s'[i].value, FetchVersionColumn(cls)) == Success(Some(next))
  {
    var plan := UpdatePlan(cls, obj, fields, next).value;
    assert plan == (obj, fields, VersionCell(next));
    var i, final := UpdatedAt(sheets, cls, env, obj, fields, next);
    UpdatedVersion(cls, env, sheets[cls.table][i].value, plan, final, next);
  }

  /** A successful update put the row it built where the search found the object. */
  lemma UpdatedAt(sheets: map<string, Sheet>, cls: LegacyClass, env: Env, obj: ObjState, fields: seq<nat>, next: Value) returns (i: nat, final: Row)
    requires cls.Valid() && FieldsValid(cls, fields) && Update(sheets, cls, env, obj, fields, next).Success?
    ensures cls.table in sheets && UpdatePlan(cls, obj, fields, next).Success?
    ensures LegacyExcelUtils.RowNumber(sheets, cls, UpdatePlan(cls, obj, fields, next).value.0, true) == Success(i)
    ensures i < |sheets[cls.table]| && sheets[cls.table][i].Some?
    ensures UpdatedRow(cls, env, sheets[cls.table][i].value, UpdatePlan(cls, obj, fields, next).value) == Success(final)
    ensures Update(sheets, cls, env, obj, fields, next).value[cls.table][i] == Some(final)
  {
    var plan := UpdatePlan(cls, obj, fields, next).value;
    i := LegacyExcelUtils.RowNumber(sheets, cls, plan.0, true).value;
    final := UpdatedRow(cls, env, sheets[cls.table][i].value, plan).value;
  }

  /** The updated row holds the next version in the slot -2 cell, where fetch reads it. */
  lemma UpdatedVersion(cls: LegacyClass, env: Env, row: Row, plan: (ObjState, seq<nat>, Option<Cell>), final: Row, next: Value)
    requires cls.Valid() && FieldsValid(cls, plan.1) && UpdatedRow(cls, env, row, plan) == Success(final)
    requires cls.version.Some? && cls.version.value.meta.field.None? && VersionOfStrategy(cls.version.value.meta.strategy, next)
    requires plan.2 == VersionCell(next)
    ensures VersionRead(cls.version.value.meta.strategy, final, FetchVersionColumn(cls)) == Success(Some(next))
  {
    var written := ProvideFields(cls, env, false, row, plan.0, plan.1).value;
    var col := LegacyExcelUtils.VersionColumn(cls);
    assert GetCell(written, col).Some?;
    assert final == written[col as nat := VersionCell(next).value];
    VersionOfCell(cls.version.value.meta.strategy, final, col as nat, next);
  }

  /**
   * Update then fetch: after a successful update, the located row reads
   * back, for every plain member of the update that owns its column and is
   * neither the version member nor in the slot -2 column, the object's value.
   */
  lemma UpdateThenFetchField(sheets: map<string, Sheet>, cls: LegacyClass, env: Env, obj: ObjState, fields: seq<nat>, next: Value, p: nat)
    requires cls.Valid() && FieldsValid(cls, fields) && Update(sheets, cls, env, obj, fields, next).Success?
    requires p in fields && PlainStored(cls, env, false, obj, p) && OwnColumn(cls, fields, p)
    requires cls.version.Some? ==> cls.members[p].member.Column0() != LegacyExcelUtils.VersionColumn(cls)
    requires cls.version.Some? && cls.version.value.meta.field.Some? ==>
               var f := cls.version.value.meta.field.value;
               p != f && cls.members[p].member.Column0() !in cls.members[f].member.columns
    ensures var i := LegacyExcelUtils.RowNumber(sheets, cls, UpdatePlan(cls, obj, fields, next).value.0, true).value;
            var s' := Update(sheets, cls, env, obj, fields, next).value[cls.table];
            0 <= i < |s'| && s'[i].Some? &&
            LegacyFetchFields.FetchObject(cls, env, s'[i].value, p) == Success(obj.Provide(p))
  {
    var plan := UpdatePlan(cls, obj, fields, next).value;
    var i, final := UpdatedAt(sheets, cls, env, obj, fields, next);
    PlanKeepsOwnColumn(cls, obj, fields, next, p);
    UpdatedRowReadsBack(cls, env, sheets[cls.table][i].value, plan, p);
  }

  /** The version step keeps a member other than the version member, with its value and its own column. */
  lemma PlanKeepsOwnColumn(cls: LegacyClass, obj: ObjState, fields: seq<nat>, next: Value, p: nat)
    requires cls.Valid() && FieldsValid(cls, fields) && UpdatePlan(cls, obj, fields, next).Success?
    requires p in fields && p < |cls.members| && OwnColumn(cls, fields, p)
    requires cls.version.Some? && cls.version.value.meta.field.Some? ==>
               var f := cls.version.value.meta.field.value;
               p != f && cls.members[p].member.Column0() !in cls.members[f].member.columns
    ensures var plan := UpdatePlan(cls, obj, fields, next).value;
            p in plan.1 && plan.0.Provide(p) == obj.Provide(p) && OwnColumn(cls, plan.1, p)
  {
    var plan := UpdatePlan(cls, obj, fields, next).value;
    assert plan.0.Provide(p) == obj.Provide(p);
    assert p in plan.1;
    assert OwnColumn(cls, plan.1, p) by {
      forall j | 0 <= j < |plan.1| && plan.1[j] != p
        ensures cls.members[p].member.Column0() !in cls.members[plan.1[j]].member.columns
      {
        assert plan.1[j] in plan.1;
        if plan.1[j] !in fields {
          assert cls.version.Some? && cls.version.value.meta.field == Some(plan.1[j]);
        } else {
          var k :| 0 <= k < |fields| && fields[k] == plan.1[j];
        }
      }
    }
  }

  /** The updated row holds every such member of the plan as the planned object's value. */
  lemma UpdatedRowReadsBack(cls: LegacyClass, env: Env, row: Row, plan: (ObjState, seq<nat>, Option<Cell>), p: nat)
    requires cls.Valid() && FieldsValid(cls, plan.1) && UpdatedRow(cls, env, row, plan).Success?
    requires p in plan.1 && PlainStored(cls, env, false, plan.0, p) && OwnColumn(cls, plan.1, p)
    requires cls.version.Some? ==> cls.members[p].member.Column0() != LegacyExcelUtils.VersionColumn(cls)
    ensures LegacyFetchFields.FetchObject(cls, env, UpdatedRow(cls, env, row, plan).value, p) == Success(plan.0.Provide(p))
  {
    var keyed := LegacyStoreFields.TableKeyCells(cls, row, false);
    var written := ProvideFields(cls, env, false, row, plan.0, plan.1).value;
    StoreEachReadsBack(cls, env, false, keyed, obj := plan.0, fields := plan.1, p := p);
    SameCellSameRead(cls, env, written, UpdatedRow(cls, env, row, plan).value, p);
  }

  // ---- delete ----------------------------------------------------------------------------

  /** `deleteObject`: as in the current tree, after a search that may itself fail. */
  function Delete(sheets: map<string, Sheet>, cls: LegacyClass, obj: ObjState, xls: bool): (r: Result<map<string, Sheet>>)
    requires cls.Valid()
    ensures cls.table !in sheets ==> r == Failure(SheetNotFound(cls.table))
    ensures cls.table in sheets && LegacyExcelUtils.RowNumber(sheets, cls, obj, false).Failure? ==>
              r == Failure(LegacyExcelUtils.RowNumber(sheets, cls, obj, false).fault)
    ensures cls.table in sheets && LegacyExcelUtils.RowNumber(sheets, cls, obj, false) == Success(-1) ==> r == Failure(ObjectNotFound)
    ensures r.Success? ==> r.value.Keys == sheets.Keys && forall t :: t in sheets && t != cls.table ==> r.value[t] == sheets[t]
  {
    var sheet :- SheetForClass(sheets, cls);
    var i :- LegacyExcelUtils.RowNumber(sheets, cls, obj, false);
    if i < 0 then Failure(ObjectNotFound)
    else if xls && LastRowNum(sheet) == i then Success(sheets[cls.table := ClearRow(sheet, i)])
    else Success(sheets[cls.table := RemoveRow(sheet, i)])
  }

  /** The XLS last row is emptied in place; any other row is taken out and the later rows move up by one. */
  lemma DeleteClearsOrShifts(sheets: map<string, Sheet>, cls: LegacyClass, obj: ObjState, xls: bool)
    requires cls.Valid() && Delete(sheets, cls, obj, xls).Success?
    ensures var s, s' := sheets[cls.table], Delete(sheets, cls, obj, xls).value[cls.table];
            var i := LegacyExcelUtils.RowNumber(sheets, cls, obj, false).value;
            0 <= i < |s| &&
            (xls && LastRowNum(s) == i ==> s' == s[i := Some(map[])] && PhysicalRows(s') == PhysicalRows(s)) &&
            (!(xls && LastRowNum(s) == i) ==> s' == s[..i] + s[i + 1..] + [None])
  {
    var s := sheets[cls.table];
    var i := LegacyExcelUtils.RowNumber(sheets, cls, obj, false).value;
    if xls && LastRowNum(s) == i {
      ClearRowKeepsRows(s, i);
    } else {
      RemoveRowShiftsUp(s, i);
    }
  }

  /** Delete then locate: the only matching row deleted, the object is no longer found. */
  lemma DeleteThenNotFound(sheets: map<string, Sheet>, cls: LegacyClass, obj: ObjState, xls: bool)
    requires cls.Valid() && Delete(sheets, cls, obj, xls).Success?
    requires |LegacyExcelUtils.Criteria(cls, obj, false).value| > 0
    requires var s, i := sheets[cls.table], LegacyExcelUtils.RowNumber(sheets, cls, obj, false).value;
             forall j :: 0 <= j < |s| && j != i ==> !MatchAt(s, j, LegacyExcelUtils.Criteria(cls, obj, false).value)
    ensures LegacyExcelUtils.RowNumber(Delete(sheets, cls, obj, xls).value, cls, obj, false) == Success(-1)
  {
    var s, i := sheets[cls.table], LegacyExcelUtils.RowNumber(sheets, cls, obj, false).value;
    LostAfterDelete(s, i, LegacyExcelUtils.Criteria(cls, obj, false).value);
  }

  // ---- fetch and locate ------------------------------------------------------------------

  /** The fields the older fetch manager reads itself: no embedded single-valued relation. */
  predicate Fetchable(cls: LegacyClass, fields: seq<nat>)
    requires FieldsValid(cls, fields)
  {
    forall i :: 0 <= i < |fields| ==>
      !(cls.members[fields[i]].member.relation.SingleValued? && cls.members[fields[i]].member.embedded)
  }

  /** `op.replaceFields(fields, new FetchFieldManager(op, sheet, row))`: each field read from the row. */
  function FetchEach(cls: LegacyClass, env: Env, row: Row, fields: seq<nat>): (r: Result<seq<Value>>)
    requires FieldsValid(cls, fields) && Fetchable(cls, fields)
    ensures r.Success? ==> |r.value| == |fields|
    ensures r.Success? ==> forall i :: 0 <= i < |fields| ==>
              LegacyFetchFields.FetchObject(cls, env, row, fields[i]) == Success(r.value[i])
    decreases |fields|
  {
    if |fields| == 0 then Success([])
    else
      var init :- FetchEach(cls, env, row, fields[..|fields| - 1]);
      var last :- LegacyFetchFields.FetchObject(cls, env, row, fields[|fields| - 1]);
      FetchEachSnoc(cls, env, row, fields, init, last);
      Success(init + [last])
  }

  /** The values read for all but the last field, then the last one's: each field's value in its place. */
  lemma FetchEachSnoc(cls: LegacyClass, env: Env, row: Row, fields: seq<nat>, init: seq<Value>, last: Value)
    requires FieldsValid(cls, fields) && Fetchable(cls, fields) && |fields| > 0 && |init| == |fields| - 1
    requires forall i :: 0 <= i < |init| ==> LegacyFetchFields.FetchObject(cls, env, row, fields[..|fields| - 1][i]) == Success(init[i])
    requires LegacyFetchFields.FetchObject(cls, env, row, fields[|fields| - 1]) == Success(last)
    ensures forall i :: 0 <= i < |fields| ==> LegacyFetchFields.FetchObject(cls, env, row, fields[i]) == Success((init + [last])[i])
  {
    forall i | 0 <= i < |fields|
      ensures LegacyFetchFields.FetchObject(cls, env, row, fields[i]) == Success((init + [last])[i])
    {
      if i < |init| {
        assert fields[..|fields| - 1][i] == fields[i];
      }
    }
  }

  /** Once a field's read fails, the whole fetch fails with its fault. */
  lemma {:induction false} FetchEachFailureStays(cls: LegacyClass, env: Env, row: Row, fields: seq<nat>, k: nat)
    requires FieldsValid(cls, fields) && Fetchable(cls, fields) && k <= |fields|
    requires FetchEach(cls, env, row, fields[..k]).Failure?
    ensures FetchEach(cls, env, row, fields) == FetchEach(cls, env, row, fields[..k])
    decreases |fields| - k
  {
    if k < |fields| {
      var init := fields[..|fields| - 1];
      assert init[..k] == fields[..k];
      assert FieldsValid(cls, init) && Fetchable(cls, init);
      FetchEachFailureStays(cls, env, row, init, k);
      FetchEachInitFails(cls, env, row, fields);
    } else {
      assert fields[..k] == fields;
    }
  }

  /** A failure of all but the last field is the failure of all of them. */
  lemma FetchEachInitFails(cls: LegacyClass, env: Env, row: Row, fields: seq<nat>)
    requires FieldsValid(cls, fields) && Fetchable(cls, fields) && |fields| > 0
    requires FetchEach(cls, env, row, fields[..|fields| - 1]).Failure?
    ensures FetchEach(cls, env, row, fields) == FetchEach(cls, env, row, fields[..|fields| - 1])
  {
  }

  /** Where fetch reads the version: the version field's resolved column, else slot -2. */
  function FetchVersionColumn(cls: LegacyClass): int
    requires cls.Valid() && cls.version.Some?
  {
    var vm := cls.version.value.meta;
    if vm.field.Some? then LegacyExcelUtils.FieldColumn(cls, vm.field.value) else LegacyExcelUtils.VersionColumn(cls)
  }

  /** `fetchObject`: the field values and, for an object with no version yet, the version read. */
  function Fetch(sheets: map<string, Sheet>, cls: LegacyClass, env: Env, obj: ObjState, fields: seq<nat>): (r: Result<(seq<Value>, Option<Value>)>)
    requires cls.Valid() && FieldsValid(cls, fields) && Fetchable(cls, fields)
    ensures cls.table !in sheets ==> r == Failure(SheetNotFound(cls.table))
    ensures cls.table in sheets && LegacyExcelUtils.RowNumber(sheets, cls, obj, false) == Success(-1) ==> r == Failure(ObjectNotFound)
    ensures r.Success? ==> |r.value.0| == |fields|
    ensures r.Success? && (cls.version.None? || obj.txVersion.Some?) ==> r.value.1.None?
  {
    var sheet :- SheetForClass(sheets, cls);
    var i :- LegacyExcelUtils.RowNumber(sheets, cls, obj, false);
    if i < 0 then Failure(ObjectNotFound)
    else
      var row := sheet[i].value;
      var values :- FetchEach(cls, env, row, fields);
      var version :- if cls.version.Some? && obj.txVersion.None? then
                       VersionRead(cls.version.value.meta.strategy, row, FetchVersionColumn(cls))
                     else Success(None);
      Success((values, version))
  }

  /**
   * Insert then fetch: with a surrogate version, an object of datastore
   * identity fetched without a version gets the one its insert wrote.
   */
  lemma InsertThenFetchVersion(sheets: map<string, Sheet>, cls: LegacyClass, env: Env, obj: ObjState, next: Value, fields: seq<nat>)
    requires cls.Valid() && cls.identity.Datastore? && FieldsValid(cls, fields) && Fetchable(cls, fields)
    requires Insert(sheets, cls, env, obj, next).Success?
    requires obj.datastoreKey.VNum? ==> InLong(obj.datastoreKey.n)
    requires cls.version.Some? && cls.version.value.meta.field.None?
    requires LegacyExcelUtils.VersionColumn(cls) != LegacyExcelUtils.IdentityColumn(cls)
    requires VersionOfStrategy(cls.version.value.meta.strategy, next) && obj.txVersion.None?
    requires Fetch(Insert(sheets, cls, env, obj, next).value, cls, env, obj, fields).Success?
    ensures Fetch(Insert(sheets, cls, env, obj, next).value, cls, env, obj, fields).value.1 == Some(next)
  {
    InsertThenLocate(sheets, cls, env, obj, next);
    var n, row := InsertedAt(sheets, cls, env, obj, next);
    var after := Insert(sheets, cls, env, obj, next).value;
    FetchVersionAt(after, cls, env, obj, fields, n, row);
    InsertedVersion(cls, env, obj, next, RowOrNew(SheetOrNew(sheets, cls.table), n), row);
  }

  /** The row insert builds reads back, at the surrogate version column, the version it was given. */
  lemma InsertedVersion(cls: LegacyClass, env: Env, obj: ObjState, next: Value, start: Row, row: Row)
    requires cls.Valid() && InsertedRow(cls, env, obj, next, start) == Success(row)
    requires cls.version.Some? && cls.version.value.meta.field.None? && VersionOfStrategy(cls.version.value.meta.strategy, next)
    ensures VersionRead(cls.version.value.meta.strategy, row, FetchVersionColumn(cls)) == Success(Some(next))
  {
    var col := LegacyExcelUtils.VersionColumn(cls);
    assert col >= 0 && col as nat in row && row[col as nat] == VersionCell(next).value;
    VersionOfCell(cls.version.value.meta.strategy, row, col as nat, next);
  }

  /** Fetch of a located object without a version reads the version from the row found. */
  lemma FetchVersionAt(sheets: map<string, Sheet>, cls: LegacyClass, env: Env, obj: ObjState, fields: seq<nat>, i: nat, row: Row)
    requires cls.Valid() && FieldsValid(cls, fields) && Fetchable(cls, fields)
    requires LegacyExcelUtils.RowNumber(sheets, cls, obj, false) == Success(i)
    requires sheets[cls.table][i] == Some(row)
    requires cls.version.Some? && obj.txVersion.None? && Fetch(sheets, cls, env, obj, fields).Success?
    ensures Fetch(sheets, cls, env, obj, fields).value.1 ==
            VersionRead(cls.version.value.meta.strategy, row, FetchVersionColumn(cls)).value
  {
  }

  /** `locateObject`: normal return exactly when the search succeeds and finds a row. */
  function Locate(sheets: map<string, Sheet>, cls: LegacyClass, obj: ObjState): (r: Outcome)
    requires cls.Valid()
    ensures r == Done <==>
              LegacyExcelUtils.Criteria(cls, obj, false).Success? && cls.table in sheets &&
              exists j :: 0 <= j < |sheets[cls.table]| && MatchAt(sheets[cls.table], j, LegacyExcelUtils.Criteria(cls, obj, false).value)
    ensures LegacyExcelUtils.Criteria(cls, obj, false).Success? && r != Done ==> r == Fail(ObjectNotFound)
  {
    match LegacyExcelUtils.RowNumber(sheets, cls, obj, false)
    case Failure(f) => Fail(f)
    case Success(i) => if i >= 0 then Done else Fail(ObjectNotFound)
  }

  // ---- the handler's methods ----------------------------------------------------------------

  /** `locateObject` over the workbook. */
  method LocateObject(wb: Workbook, cls: LegacyClass, obj: ObjState) returns (r: Outcome)
    requires cls.Valid()
    ensures r == Locate(wb.sheets, cls, obj)
  {
    var rownum := LegacyExcelUtils.GetRowNumber(wb.sheets, cls, obj, false);
    if rownum.Failure? {
      return Fail(rownum.fault);
    }
    if rownum.value >= 0 {
      return Done;
    }
    return Fail(ObjectNotFound);
  }

  /** The inserted row built as insert builds it: the field manager, then the identity and version cells. */
  method WriteInsertedRow(cls: LegacyClass, env: Env, obj: ObjState, next: Value, start: Row) returns (r: Result<Row>)
    requires cls.Valid()
    ensures r == InsertedRow(cls, env, obj, next, start)
  {
    var written := ProvideFieldsTo(cls, env, true, start, obj, AllPositions(cls));
    if written.Failure? {
      return Failure(written.fault);
    }
    r := WriteKeyAndVersion(cls, env, obj, next, start, written.value);
  }

  /** The identity cell, then the version cell, written into the row the fields were written to. */
  method WriteKeyAndVersion(cls: LegacyClass, env: Env, obj: ObjState, next: Value, start: Row, written: Row) returns (r: Result<Row>)
    requires cls.Valid() && ProvideFields(cls, env, true, start, obj, AllPositions(cls)) == Success(written)
    ensures r == InsertedRow(cls, env, obj, next, start)
  {
    var withId := WriteIdentityCell(cls, obj, written);
    if withId.Failure? {
      return withId;
    }
    if cls.version.Some? {
      r := CreateAndSet(withId.value, LegacyExcelUtils.VersionColumn(cls), VersionCell(next));
    } else {
      r := withId;
    }
  }

  /** The datastore identity's cell, created and set to the key in the written row. */
  method WriteIdentityCell(cls: LegacyClass, obj: ObjState, written: Row) returns (r: Result<Row>)
    requires cls.Valid()
    ensures r == WithIdentity(cls, obj, written)
  {
    r := Success(written);
    if cls.identity.Datastore? {
      var idCellNum := LegacyExcelUtils.IdentityColumn(cls);
      var created := CreateAndSet(written, idCellNum, None);
      if created.Failure? {
        return Failure(created.fault);
      }
      var idCell := IdCell(obj.datastoreKey);
      if idCell.Failure? {
        return Failure(idCell.fault);
      }
      r := Success(created.value[idCellNum as nat := idCell.value]);
    }
  }

  /** `insertObject` over the workbook. */
  method InsertObject(wb: Workbook, cls: LegacyClass, env: Env, obj: ObjState, next: Value) returns (r: Outcome)
    requires cls.Valid()
    modifies wb
    ensures Applied(r, wb.sheets, old(wb.sheets), Insert(old(wb.sheets), cls, env, obj, next))
  {
    if !cls.identity.Nondurable? {
      var located := LegacyExcelUtils.GetRowNumber(wb.sheets, cls, obj, false);
      if located.Failure? {
        return Fail(located.fault);
      }
      if located.value >= 0 {
        return Fail(DuplicateIdentity);
      }
    }
    var inserted := AppendObjectRow(wb.sheets, cls, env, obj, next);
    if inserted.Failure? {
      return Fail(inserted.fault);
    }
    wb.sheets := inserted.value;
    return Done;
  }

  /** The part of insert after the duplicate check: the row count, the row written, the row put. */
  method AppendObjectRow(sheets: map<string, Sheet>, cls: LegacyClass, env: Env, obj: ObjState, next: Value)
      returns (r: Result<map<string, Sheet>>)
    requires cls.Valid() && (cls.identity.Nondurable? || LegacyExcelUtils.RowNumber(sheets, cls, obj, false) == Success(-1))
    ensures r == Insert(sheets, cls, env, obj, next)
  {
    var count := LegacyExcelUtils.NumberOfRows(sheets, cls);
    if count.Failure? {
      return Failure(count.fault);
    }
    InsertIsAtRow(sheets, cls, env, obj, next, count.value);
    r := PutInsertedRow(sheets, cls, env, obj, next, count.value);
  }

  /** An object not yet in the sheet is inserted at the row count. */
  lemma InsertIsAtRow(sheets: map<string, Sheet>, cls: LegacyClass, env: Env, obj: ObjState, next: Value, rowNum: nat)
    requires cls.Valid() && (cls.identity.Nondurable? || LegacyExcelUtils.RowNumber(sheets, cls, obj, false) == Success(-1))
    requires LegacyExcelUtils.RowCount(sheets, cls) == Success(rowNum)
    ensures Insert(sheets, cls, env, obj, next) == InsertAtRow(sheets, cls, env, obj, next, rowNum)
  {
  }

  /** Writes the object's row and puts it at `rowNum` of the class's sheet. */
  method PutInsertedRow(sheets: map<string, Sheet>, cls: LegacyClass, env: Env, obj: ObjState, next: Value, rowNum: nat)
      returns (r: Result<map<string, Sheet>>)
    requires cls.Valid()
    ensures r == InsertAtRow(sheets, cls, env, obj, next, rowNum)
  {
    var sheet := SheetOrNew(sheets, cls.table);
    var row := WriteInsertedRow(cls, env, obj, next, RowOrNew(sheet, rowNum));
    if row.Failure? {
      return Failure(row.fault);
    }
    return Success(sheets[cls.table := PutRow(sheet, rowNum, row.value)]);
  }

  /** The `vermd != null` block of update before the row is located. */
  method PlanVersion(cls: LegacyClass, obj: ObjState, fields: seq<nat>, next: Value) returns (r: Result<(ObjState, seq<nat>, Option<Cell>)>)
    requires cls.Valid() && FieldsValid(cls, fields)
    ensures r == UpdatePlan(cls, obj, fields, next)
  {
    if cls.version.None? {
      return Success((obj, fields, None));
    }
    var vm := cls.version.value.meta;
    var verCell := VersionCell(next);
    if vm.field.None? {
      return Success((obj, fields, verCell));
    }
    var f := vm.field.value;
    var value := next;
    if vm.fieldIsInt {
      if !next.VNum? {
        return Failure(if next.VNull? then NullValue else ClassCast);
      }
      value := VNum(IntValue(next.n));
      verCell := None;
    }
    var updatedFieldNums := AppendVersionField(fields, f);
    return Success((WithField(obj, f, value), updatedFieldNums, verCell));
  }

  /** The located row written as update writes it. */
  method WriteUpdatedRow(cls: LegacyClass, env: Env, row: Row, plan: (ObjState, seq<nat>, Option<Cell>)) returns (r: Result<Row>)
    requires cls.Valid() && FieldsValid(cls, plan.1)
    ensures r == UpdatedRow(cls, env, row, plan)
  {
    var written := ProvideFieldsTo(cls, env, false, row, plan.0, plan.1);
    if written.Failure? {
      return Failure(written.fault);
    }
    if cls.version.Some? {
      r := SetExisting(written.value, LegacyExcelUtils.VersionColumn(cls), plan.2);
    } else {
      r := written;
    }
  }

  /** `updateObject` over the workbook. */
  method UpdateObject(wb: Workbook, cls: LegacyClass, env: Env, obj: ObjState, fields: seq<nat>, next: Value) returns (r: Outcome)
    requires cls.Valid() && FieldsValid(cls, fields)
    modifies wb
    ensures Applied(r, wb.sheets, old(wb.sheets), Update(old(wb.sheets), cls, env, obj, fields, next))
  {
    if cls.table !in wb.sheets {
      return Fail(SheetNotFound(cls.table));
    }
    var plan := PlanVersion(cls, obj, fields, next);
    if plan.Failure? {
      return Fail(plan.fault);
    }
    var updated := RewriteObjectRow(wb.sheets, cls, env, obj, fields, next, plan.value);
    if updated.Failure? {
      return Fail(updated.fault);
    }
    wb.sheets := updated.value;
    return Done;
  }

  /** The part of update after the version step: the row located, written and put back. */
  method RewriteObjectRow(sheets: map<string, Sheet>, cls: LegacyClass, env: Env, obj: ObjState, fields: seq<nat>, next: Value,
                          plan: (ObjState, seq<nat>, Option<Cell>))
      returns (r: Result<map<string, Sheet>>)
    requires cls.Valid() && FieldsValid(cls, fields) && cls.table in sheets
    requires UpdatePlan(cls, obj, fields, next) == Success(plan)
    ensures r == Update(sheets, cls, env, obj, fields, next)
  {
    var rowIndex := LegacyExcelUtils.GetRowNumber(sheets, cls, plan.0, true);
    if rowIndex.Failure? {
      return Failure(rowIndex.fault);
    }
    var row := GetRow(sheets[cls.table], rowIndex.value);
    if row.None? {
      return Failure(RowNotFound);
    }
    UpdateIsAtRow(sheets, cls, env, obj, fields, next, plan, rowIndex.value, row.value);
    r := PutUpdatedRow(sheets, cls, env, plan, rowIndex.value, row.value);
  }

  /** Writes the updated fields into the located row and puts it back in its place. */
  method PutUpdatedRow(sheets: map<string, Sheet>, cls: LegacyClass, env: Env, plan: (ObjState, seq<nat>, Option<Cell>), rowIndex: int, row: Row)
      returns (r: Result<map<string, Sheet>>)
    requires cls.Valid() && FieldsValid(cls, plan.1) && cls.table in sheets && 0 <= rowIndex < |sheets[cls.table]|
    ensures r == UpdateAtRow(sheets, cls, env, plan, rowIndex, row)
  {
    var final := WriteUpdatedRow(cls, env, row, plan);
    if final.Failure? {
      return Failure(final.fault);
    }
    return Success(sheets[cls.table := sheets[cls.table][rowIndex := Some(final.value)]]);
  }

  /** The tail of update: the planned fields written into `row`, put back at `rowIndex`. */
  function UpdateAtRow(sheets: map<string, Sheet>, cls: LegacyClass, env: Env, plan: (ObjState, seq<nat>, Option<Cell>), rowIndex: int, row: Row)
    : Result<map<string, Sheet>>
    requires cls.Valid() && FieldsValid(cls, plan.1) && cls.table in sheets && 0 <= rowIndex < |sheets[cls.table]|
  {
    var final :- UpdatedRow(cls, env, row, plan);
    Success(sheets[cls.table := sheets[cls.table][rowIndex := Some(final)]])
  }

  /** An update whose row is found is the planned fields written into that row. */
  lemma UpdateIsAtRow(sheets: map<string, Sheet>, cls: LegacyClass, env: Env, obj: ObjState, fields: seq<nat>, next: Value,
                      plan: (ObjState, seq<nat>, Option<Cell>), rowIndex: int, row: Row)
    requires cls.Valid() && FieldsValid(cls, fields) && cls.table in sheets
    requires UpdatePlan(cls, obj, fields, next) == Success(plan)
    requires LegacyExcelUtils.RowNumber(sheets, cls, plan.0, true) == Success(rowIndex) && GetRow(sheets[cls.table], rowIndex) == Some(row)
    ensures FieldsValid(cls, plan.1) && 0 <= rowIndex < |sheets[cls.table]|
    ensures Update(sheets, cls, env, obj, fields, next) == UpdateAtRow(sheets, cls, env, plan, rowIndex, row)
  {
  }

  /** `deleteObject` over the workbook; `xls` is whether the store is the XLS one. */
  method DeleteObject(wb: Workbook, cls: LegacyClass, obj: ObjState, xls: bool) returns (r: Outcome)
    requires cls.Valid()
    modifies wb
    ensures Applied(r, wb.sheets, old(wb.sheets), Delete(old(wb.sheets), cls, obj, xls))
  {
    if cls.table !in wb.sheets {
      return Fail(SheetNotFound(cls.table));
    }
    var sheet := wb.sheets[cls.table];
    var rowId := LegacyExcelUtils.GetRowNumber(wb.sheets, cls, obj, false);
    if rowId.Failure? {
      return Fail(rowId.fault);
    }
    if rowId.value < 0 {
      return Fail(ObjectNotFound);
    }
    var i := rowId.value;
    if xls && LastRowNum(sheet) == i {
      var cleared := RemoveAllCells(sheet[i].value);
      wb.sheets := wb.sheets[cls.table := sheet[i := Some(cleared)]];
    } else {
      wb.sheets := wb.sheets[cls.table := RemoveRow(sheet, i)];
    }
    return Done;
  }

  /** `fetchObject` over the workbook: the fields' values and the version read, if any. */
  method FetchObject(wb: Workbook, cls: LegacyClass, env: Env, obj: ObjState, fields: seq<nat>) returns (r: Result<(seq<Value>, Option<Value>)>)
    requires cls.Valid() && FieldsValid(cls, fields) && Fetchable(cls, fields)
    ensures r == Fetch(wb.sheets, cls, env, obj, fields)
  {
    if cls.table !in wb.sheets {
      return Failure(SheetNotFound(cls.table));
    }
    var sheet := wb.sheets[cls.table];
    var rowNumber := LegacyExcelUtils.GetRowNumber(wb.sheets, cls, obj, false);
    if rowNumber.Failure? {
      return Failure(rowNumber.fault);
    }
    if rowNumber.value < 0 {
      return Failure(ObjectNotFound);
    }
    var row := sheet[rowNumber.value].value;
    var values: seq<Value> := [];
    for i := 0 to |fields|
      invariant FetchEach(cls, env, row, fields[..i]) == Success(values)
    {
      assert fields[..i + 1][..i] == fields[..i];
      var v := LegacyFetchFields.FetchObject(cls, env, row, fields[i]);
      if v.Failure? {
        FetchEachFailureStays(cls, env, row, fields, i + 1);
        return Failure(v.fault);
      }
      values := values + [v.value];
    }
    assert fields[..|fields|] == fields;
    var version: Option<Value> := None;
    if cls.version.Some? && obj.txVersion.None? {
      var read := VersionRead(cls.version.value.meta.strategy, row, FetchVersionColumn(cls));
      if read.Failure? {
        return Failure(read.fault);
      }
      version := read.value;
    }
    return Success((values, version));
  }
}
