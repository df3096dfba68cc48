/**
 * The current tree's `StoreFieldManager`: how the field values of one object
 * are written into the cells of its row.  The pure functions say what a store
 * call leaves in the row; the class `StoreFieldManager` holds the row and
 * makes the same changes step by step, with the `StringBuilder` loops of the
 * reference format, and is proved to end in the state the functions give.
 */
module StoreFields {
  import opened Outcomes
  import opened Values
  import opened Cells
  import opened Mapping
  import opened RefText
  import opened RowAccounting
  import ExcelUtils

  // ---- cells -----------------------------------------------------------------

  /** `row.getCell(col, MissingCellPolicy.CREATE_NULL_AS_BLANK)`: a cell at `col`, blank if it was absent. */
  function EnsureCell(row: Row, col: nat): (r: Row)
    ensures col in r && (col in row ==> r[col] == row[col]) && (col !in row ==> r[col] == Blank)
    ensures forall c :: c in row ==> c in r && r[c] == row[c]
    ensures forall c :: c in r ==> c in row || c == col
  {
    if col in row then row else row[col := Blank]
  }

  /** `row.removeCell(cell)`. */
  function RemoveCell(row: Row, col: nat): (r: Row)
    ensures col !in r
    ensures forall c :: c in row && c != col ==> c in r && r[c] == row[c]
    ensures forall c :: c in r ==> c in row
  {
    row - {col}
  }

  /** `a` and `b` hold the same cells at every column outside `cols`. */
  ghost predicate SameOutside(a: Row, b: Row, cols: seq<nat>)
  {
    forall c :: c !in cols ==> (c in a <==> c in b) && (c in a ==> a[c] == b[c])
  }

  /** `isStorable(fieldNumber)`: insertable on an insert, updatable on an update. */
  predicate Storable(m: Member, insert: bool)
  {
    if insert then m.storableOnInsert else m.storableOnUpdate
  }

  /** A relation field stored embedded in the owner's row. */
  predicate EmbeddedRelation(m: Member)
  {
    m.relation != NoRelation && m.embedded
  }

  // ---- key cells ---------------------------------------------------------------

  /**
   * The first `n` key columns of an application-identity class with a cell
   * each, created blank where missing; a key field that is an embedded
   * relation is refused.
   */
  function KeyCellsFrom(cls: ClassMeta, row: Row, n: nat): (r: Result<Row>)
    requires cls.Valid() && n <= |cls.pkPositions|
    ensures r.Success? <==> forall j :: 0 <= j < n ==> !EmbeddedRelation(cls.members[cls.pkPositions[j]])
    ensures r.Failure? ==> r.fault == EmbeddedKey
    ensures r.Success? ==> forall j :: 0 <= j < n ==> cls.KeyColumn(j) in r.value
    ensures r.Success? ==> forall c :: c in row ==> c in r.value && r.value[c] == row[c]
    ensures r.Success? ==> forall c :: c in r.value && c !in row ==> r.value[c] == Blank
  {
    if n == 0 then Success(row)
    else
      var prev :- KeyCellsFrom(cls, row, n - 1);
      if EmbeddedRelation(cls.members[cls.pkPositions[n - 1]]) then Failure(EmbeddedKey)
      else Success(EnsureCell(prev, cls.KeyColumn(n - 1)))
  }

  /**
   * What the constructor taking a state manager does to a row before any
   * field is stored, so that the row counts as active at once: a cell at
   * every key column, or at the datastore identity column.  `embedded` is
   * `op.isEmbedded()`, for which nothing is created.
   */
  function KeyCells(cls: ClassMeta, row: Row, embedded: bool): (r: Result<Row>)
    requires cls.Valid()
  {
    if embedded then Success(row)
    else
      match cls.identity
      case Application => KeyCellsFrom(cls, row, |cls.pkPositions|)
      case Datastore => Success(EnsureCell(row, cls.datastoreIdColumn))
      case Nondurable => Success(row)
  }

  /**
   * The purpose the source states for the key cells: once they exist, the
   * active-row count sees the row, and no cell that was there is changed.
   */
  lemma KeyCellsMakeRowActive(cls: ClassMeta, row: Row)
    requires cls.Valid() && !cls.identity.Nondurable?
    requires KeyCells(cls, row, false).Success?
    ensures HasCells(KeyCells(cls, row, false).value, ExcelUtils.ActivityColumns(cls))
    ensures forall c :: c in row ==> c in KeyCells(cls, row, false).value && KeyCells(cls, row, false).value[c] == row[c]
  {
  }

  /** An embedded key field always makes the row preparation fail. */
  lemma EmbeddedKeyRefused(cls: ClassMeta, row: Row, j: nat)
    requires cls.Valid() && cls.identity.Application? && j < |cls.pkPositions|
    requires EmbeddedRelation(cls.members[cls.pkPositions[j]])
    ensures KeyCells(cls, row, false) == Failure(EmbeddedKey)
  {
  }

  // ---- setValueInCellForType ---------------------------------------------------

  /** The classes `setValueInCellForType` knows. */
  predicate Handled(t: JType)
  {
    IsNumber(t) || t.TChar? || t.TBoolean? || t.TDate? || t.TCalendar? || t.TString? || t.TEnum? || t.TBytes?
  }

  /** `"" + value`. */
  function CharText(env: Env, v: Value): string
  {
    match v
    case VChar(c) => [c]
    case VNull => "null"
    case _ => env.text(v)
  }

  /** The cell for an enum's stored value: a number, or the text of a `(String)` cast. */
  function StoredCell(stored: Value): Result<Option<Cell>>
  {
    match stored
    case VNum(n) => Success(Some(Num(n)))
    case VStr(s) => Success(Some(Str(s)))
    case VNull => Success(Some(Blank))
    case _ => Failure(ClassCast)
  }

  /**
   * `setValueInCellForType`: the cell written for `v` of class `t`, tried in
   * the source's order; `None` is the `false` returned for any other class.
   * A value of another class is the `ClassCastException` of the cast, and a
   * `null` that is unboxed or encoded the `NullPointerException`; a `null`
   * text or date blanks the cell, as POI does.
   */
  function CellForType(t: JType, v: Value, env: Env): (r: Result<Option<Cell>>)
    ensures (r.Success? && r.value.None?) <==> !Handled(t)
  {
    if IsNumber(t) then
      match v
      case VNum(n) => Success(Some(Num(n)))
      case VNull => Failure(NullValue)
      case _ => Failure(ClassCast)
    else if t.TChar? then Success(Some(Str(CharText(env, v))))
    else if t.TBoolean? then
      match v
      case VBool(b) => Success(Some(Bool(b)))
      case VNull => Failure(NullValue)
      case _ => Failure(ClassCast)
    else if t.TDate? then
      match v
      case VDate(ms) => Success(Some(Date(ms)))
      case VNull => Success(Some(Blank))
      case _ => Failure(ClassCast)
    else if t.TCalendar? then
      match v
      case VCalendar(ms) => Success(Some(Date(ms)))
      case VNull => Success(Some(Blank))
      case _ => Failure(ClassCast)
    else if t.TString? then
      match v
      case VStr(s) => Success(Some(Str(s)))
      case VNull => Success(Some(Blank))
      case _ => Failure(ClassCast)
    else if t.TEnum? then
      if v.VEnum? || v.VNull? then StoredCell(env.enumToStored(v)) else Failure(ClassCast)
    else if t.TBytes? then
      match v
      case VBytes(b) => Success(Some(Str(env.encode64(b))))
      case VNull => Failure(NullValue)
      case _ => Failure(ClassCast)
    else Success(None)
  }

  /** `cell.setCellValue((Long) value)`. */
  function LongCell(dv: Value): Result<Cell>
  {
    match dv
    case VNum(n) => Success(Num(n))
    case VNull => Failure(NullValue)
    case _ => Failure(ClassCast)
  }

  /** `cell.setCellValue(createRichTextString((String) value))`. */
  function StringCell(dv: Value): Result<Cell>
  {
    match dv
    case VStr(s) => Success(Str(s))
    case VNull => Success(Blank)
    case _ => Failure(ClassCast)
  }

  /**
   * The converter fallback for a class `setValueInCellForType` refuses: a
   * numeric column tries only the `Long` converter; any other column the
   * `String` converter, then the `Long` one.  `None` is the warning that
   * leaves the (blank) cell as it was.
   */
  function FallbackCell(m: Member, env: Env, v: Value): (r: Result<Option<Cell>>)
    ensures m.numericColumn && env.longConverter(m.jtype).None? ==> r == Success(None)
    ensures env.longConverter(m.jtype).None? && env.stringConverter(m.jtype).None? ==> r == Success(None)
    ensures r.Success? && r.value.Some? && m.numericColumn ==> r.value.value.Num?
  {
    var longConv := env.longConverter(m.jtype);
    if m.numericColumn then
      if longConv.Some? then
        var c :- LongCell(longConv.value.toDatastore(v));
        Success(Some(c))
      else Success(None)
    else if env.stringConverter(m.jtype).Some? then
      var c :- StringCell(env.stringConverter(m.jtype).value.toDatastore(v));
      Success(Some(c))
    else if longConv.Some? then
      var c :- LongCell(longConv.value.toDatastore(v));
      Success(Some(c))
    else Success(None)
  }

  /** A cell that was set, or the blank one `CREATE_NULL_AS_BLANK` made when nothing was. */
  function PutOrBlank(row: Row, col: nat, c: Option<Cell>): (r: Row)
    ensures col in r && (c.Some? ==> r[col] == c.value)
    ensures forall k :: k != col ==> (k in r <==> k in row) && (k in row ==> r[k] == row[k])
  {
    if c.Some? then row[col := c.value] else EnsureCell(row, col)
  }

  // ---- type converters ---------------------------------------------------------

  /**
   * The columns of a multi-column converter from column `i` on, written into
   * `row`: each cell is created blank, then set from component `i` of the
   * datastore value with class `types[i]` (`int` and `long` become `Integer`
   * and `Long`, which the classes here do not tell apart).  Too few
   * components or column classes is the index exception of `Array.get` or
   * `colTypes[i]`, which ends the loop.
   */
  function StoreComponents(row: Row, cols: seq<nat>, types: seq<JType>, vals: seq<Value>, env: Env, i: nat): (r: Result<Row>)
    requires i <= |cols|
    ensures r.Success? ==> SameOutside(row, r.value, cols) && row.Keys <= r.value.Keys
    ensures r.Success? ==> forall j :: i <= j < |cols| ==> cols[j] in r.value
    ensures r.Success? && i < |cols| ==> |cols| <= |vals| && |cols| <= |types|
    ensures i < |cols| && (|vals| < |cols| || |types| < |cols|) ==> r.Failure?
    decreases |cols| - i
  {
    if i == |cols| then Success(row)
    else
      var blank := EnsureCell(row, cols[i]);
      if i >= |vals| || i >= |types| then Failure(IndexOutOfBounds)
      else
        var c :- CellForType(types[i], vals[i], env);
        StoreComponents(PutOrBlank(blank, cols[i], c), cols, types, vals, env, i + 1)
  }

  /**
   * A member with a type converter.  A one-column mapping writes the
   * converted value by the converter's datastore class, a `null` member value
   * removing the cell.  A multi-column mapping writes one cell per column; a
   * `null` member value removes the cell of column 0 only, since every pass
   * of the removing loop reads `getColumn(0)`.
   */
  function StoreConverted(m: Member, env: Env, row: Row, v: Value): (r: Result<Row>)
    requires m.converter.Some? && |m.columns| > 0
    ensures r.Success? ==> SameOutside(row, r.value, m.columns)
    ensures v.VNull? ==> r == Success(RemoveCell(row, m.columns[0]))
  {
    var col := m.columns[0];
    if v.VNull? then Success(RemoveCell(row, col))
    else
      match m.converter.value
      case Single(dt, conv) =>
        if |m.columns| == 1 then
          var c :- CellForType(dt, conv.toDatastore(v), env);
          Success(PutOrBlank(row, col, c))
        else Failure(ClassCast)
      case Multi(types, toColumns, _) =>
        if |m.columns| == 1 then Success(EnsureCell(row, col))
        else StoreComponents(row, m.columns, types, toColumns(v), env, 0)
  }

  // ---- the reference format ----------------------------------------------------

  /** The framework's reachability test: detached or persistent; an embedded value is the owner's. */
  predicate Reachable(v: Value)
  {
    (v.VRef? && (v.target.persistent || v.target.detached)) || v.VEmbedded?
  }

  /**
   * The reachability check as written: it runs before the `null` test, and
   * the framework calls `null` neither detached nor persistent, so a `null`
   * reference with cascade-persist disallowed is refused.
   */
  predicate RejectsAsWritten(m: Member, v: Value)
  {
    !m.cascadePersist && !Reachable(v)
  }

  /** The reachability check for a reference that is there. */
  predicate Rejects(m: Member, v: Value)
  {
    !v.VNull? && !m.cascadePersist && !Reachable(v)
  }

  /**
   * The identity string appended for an element or a persistable map part:
   * a persisted related object's identity.  The framework persists `null`
   * as `null` and gives it no identity, and `StringBuilder` appends that as
   * the text `null`; any other value cannot be persisted.
   */
  function IdOf(v: Value): (r: Result<string>)
    ensures r.Success? <==> v.VRef? || v.VNull?
    ensures v.VRef? ==> r == Success(v.target.id)
    ensures v.VNull? ==> r == Success("null")
    ensures r.Failure? ==> r.fault == NotPersistable
  {
    match v
    case VRef(_) => Success(v.target.id)
    case VNull => Success("null")
    case _ => Failure(NotPersistable)
  }

  /** The identity strings of the elements, in iteration order. */
  function Ids(elems: seq<Value>): (r: Result<seq<string>>)
    ensures r.Success? <==> forall i :: 0 <= i < |elems| ==> IdOf(elems[i]).Success?
    ensures r.Failure? ==> r.fault == NotPersistable
    ensures r.Success? ==> |r.value| == |elems| && forall i :: 0 <= i < |elems| ==> Success(r.value[i]) == IdOf(elems[i])
  {
    if |elems| == 0 then Success([])
    else
      var init := Ids(elems[..|elems| - 1]);
      assert forall i :: 0 <= i < |elems| - 1 ==> elems[..|elems| - 1][i] == elems[i];
      var ids :- init;
      var last :- IdOf(elems[|elems| - 1]);
      Success(ids + [last])
  }

  /** `[id1,id2,...]`: the text of a collection or an array of references. */
  function ElementsText(elems: seq<Value>): Result<string>
  {
    var ids :- Ids(elems);
    Success(Bracket(Join(ids)))
  }

  /** `String.valueOf` of a map key or value that is not persistable. */
  function JavaString(env: Env, v: Value): string
  {
    match v
    case VStr(s) => s
    case VNull => "null"
    case VEnum(_, name) => name
    case VChar(c) => [c]
    case _ => env.text(v)
  }

  /** The key and value texts of one map entry: identity strings of persistables, else `String.valueOf`. */
  function EntryText(m: Member, env: Env, e: (Value, Value)): (r: Result<(string, string)>)
    ensures r.Failure? ==> r.fault == NotPersistable
    ensures r.Success? <==> (m.keyPersistable ==> IdOf(e.0).Success?) && (m.valuePersistable ==> IdOf(e.1).Success?)
  {
    var k :- if m.keyPersistable then IdOf(e.0) else Success(JavaString(env, e.0));
    var v :- if m.valuePersistable then IdOf(e.1) else Success(JavaString(env, e.1));
    Success((k, v))
  }

  function EntryTexts(m: Member, env: Env, entries: seq<(Value, Value)>): (r: Result<seq<(string, string)>>)
    ensures r.Failure? ==> r.fault == NotPersistable
    ensures r.Success? <==> forall i :: 0 <= i < |entries| ==> EntryText(m, env, entries[i]).Success?
    ensures r.Success? ==> |r.value| == |entries| && forall i :: 0 <= i < |entries| ==> EntryText(m, env, entries[i]) == Success(r.value[i])
  {
    if |entries| == 0 then Success([])
    else
      var init := EntryTexts(m, env, entries[..|entries| - 1]);
      assert forall i :: 0 <= i < |entries| - 1 ==> entries[..|entries| - 1][i] == entries[i];
      var texts :- init;
      var last :- EntryText(m, env, entries[|entries| - 1]);
      Success(texts + [last])
  }

  /** `[[k1],[v1],[k2],[v2],...]`: the text of a map. */
  function MapText(m: Member, env: Env, entries: seq<(Value, Value)>): Result<string>
  {
    var texts :- EntryTexts(m, env, entries);
    Success(Bracket(Join(EntryParts(texts))))
  }

  /**
   * The text a multi-valued member is written as; `None` for a member that is
   * none of collection, map and array, whose cell is left blank.  With
   * cascade-persist disallowed, a collection with an element neither
   * persistent nor detached is refused; maps and arrays are not checked.
   */
  function ContainerText(m: Member, env: Env, v: Value): (r: Result<Option<string>>)
    ensures m.container.NoContainer? ==> r == Success(None)
    ensures r.Success? && r.value.Some? ==> IsBracketed(r.value.value)
  {
    match m.container
    case NoContainer => Success(None)
    case CollectionOf =>
      if !v.VColl? then Failure(ClassCast)
      else if !m.cascadePersist && exists i :: 0 <= i < |v.elems| && !Reachable(v.elems[i]) then Failure(NotCascaded)
      else
        var t :- ElementsText(v.elems);
        Success(Some(t))
    case MapOf =>
      if !v.VMap? then Failure(ClassCast)
      else
        var t :- MapText(m, env, v.entries);
        Success(Some(t))
    case ArrayOf =>
      if !v.VArr? then Failure(ClassCast)
      else
        var t :- ElementsText(v.elems);
        Success(Some(t))
  }

  /** A single-valued reference as written: the reachability check first, then the `null` test. */
  function StoreReferenceAsWritten(m: Member, row: Row, v: Value): (r: Result<Row>)
    requires |m.columns| > 0
    ensures RejectsAsWritten(m, v) ==> r == Failure(NotCascaded)
    ensures r.Success? ==> SameOutside(row, r.value, m.columns)
  {
    var col := m.columns[0];
    if RejectsAsWritten(m, v) then Failure(NotCascaded)
    else if v.VNull? then Success(RemoveCell(row, col))
    else
      var id :- IdOf(v);
      Success(row[col := Str(Bracket(id))])
  }

  /**
   * A single-valued reference: `null` removes the cell, a reference is
   * written as `[id]`, and with cascade-persist disallowed a target that is
   * neither persistent nor detached is refused.
   */
  function StoreReference(m: Member, row: Row, v: Value): (r: Result<Row>)
    requires |m.columns| > 0
    ensures v.VNull? ==> r == Success(RemoveCell(row, m.columns[0]))
    ensures v.VRef? && !Rejects(m, v) ==> r == Success(row[m.columns[0] := Str(Bracket(v.target.id))])
    ensures Rejects(m, v) ==> r == Failure(NotCascaded)
    ensures r.Success? ==> SameOutside(row, r.value, m.columns)
  {
    var col := m.columns[0];
    if v.VNull? then Success(RemoveCell(row, col))
    else if Rejects(m, v) then Failure(NotCascaded)
    else
      var id :- IdOf(v);
      Success(row[col := Str(Bracket(id))])
  }

  /** The order of the two tests matters only for `null`: as written it is refused. */
  lemma NullReferenceRefusedAsWritten(m: Member, row: Row)
    requires |m.columns| > 0 && !m.cascadePersist
    ensures StoreReferenceAsWritten(m, row, VNull) == Failure(NotCascaded)
    ensures StoreReference(m, row, VNull) == Success(RemoveCell(row, m.columns[0]))
  {
  }

  lemma ReferenceCorrectionOnlyNull(m: Member, row: Row, v: Value)
    requires |m.columns| > 0 && !v.VNull?
    ensures StoreReferenceAsWritten(m, row, v) == StoreReference(m, row, v)
  {
  }

  // ---- storeObjectFieldInternal and storeObjectField ---------------------------

  /**
   * `storeObjectFieldInternal`: the row after writing object value `v` of
   * member `m`.
   */
  function StoreInternal(m: Member, env: Env, row: Row, v: Value): (r: Result<Row>)
    requires |m.columns| > 0
    ensures r.Success? ==> SameOutside(row, r.value, m.columns)
    ensures v.VNull? && !(m.relation.NoRelation? && m.converter.Some?) ==> r == Success(RemoveCell(row, m.columns[0]))
  {
    var col := m.columns[0];
    match m.relation
    case NoRelation =>
      if m.converter.Some? then StoreConverted(m, env, row, v)
      else if v.VNull? then Success(RemoveCell(row, col))
      else
        var direct :- CellForType(m.jtype, v, env);
        var c :- if direct.Some? then Success(direct) else FallbackCell(m, env, v);
        Success(PutOrBlank(row, col, c))
    case SingleValued => StoreReference(m, row, v)
    case MultiValued =>
      if v.VNull? then Success(RemoveCell(row, col))
      else
        var text :- ContainerText(m, env, v);
        Success(PutOrBlank(row, col, if text.Some? then Some(Str(text.value)) else None))
  }

  /**
   * `storeObjectField`: fields that are not storable are skipped; an
   * embedded single-valued relation is checked for reachability and then
   * handed to the embedded field manager; an embedded multi-valued one is
   * refused.  Only the member's own columns change.
   */
  function StoreObject(cls: ClassMeta, env: Env, insert: bool, row: Row, p: nat, v: Value): (r: Result<Row>)
    requires cls.Valid() && p < |cls.members|
    ensures r.Success? ==> SameOutside(row, r.value, cls.members[p].columns)
    ensures !Storable(cls.members[p], insert) ==> r == Success(row)
    ensures Storable(cls.members[p], insert) && EmbeddedRelation(cls.members[p]) && cls.members[p].relation.MultiValued? ==>
              r == Failure(Unsupported)
  {
    var m := cls.members[p];
    if !Storable(m, insert) then Success(row)
    else if EmbeddedRelation(m) then
      if m.relation.SingleValued? then
        if Rejects(m, v) then Failure(NotCascaded) else Success(row)
      else Failure(Unsupported)
    else StoreInternal(m, env, row, v)
  }

  /** A `null` object value of a stored, non-embedded member without a converter leaves no cell behind. */
  lemma NullRemovesCell(cls: ClassMeta, env: Env, insert: bool, row: Row, p: nat)
    requires cls.Valid() && p < |cls.members|
    requires Storable(cls.members[p], insert) && !EmbeddedRelation(cls.members[p]) && cls.members[p].converter.None?
    ensures StoreObject(cls, env, insert, row, p, VNull).Success?
    ensures cls.members[p].Column0() !in StoreObject(cls, env, insert, row, p, VNull).value
  {
  }

  /** `store<Primitive>Field`: a storable field's cell, created when absent, is set to `c`. */
  function StoreCell(m: Member, insert: bool, row: Row, c: Cell): (r: Row)
    requires |m.columns| > 0
    ensures Storable(m, insert) ==> m.Column0() in r && r[m.Column0()] == c
    ensures !Storable(m, insert) ==> r == row
    ensures SameOutside(row, r, m.columns)
  {
    if Storable(m, insert) then row[m.Column0() := c] else row
  }

  /** `storeStringField`: `null` removes the cell, any other string is written. */
  function StoreString(m: Member, insert: bool, row: Row, s: Option<string>): (r: Row)
    requires |m.columns| > 0
    ensures Storable(m, insert) && s.None? ==> m.Column0() !in r
    ensures Storable(m, insert) && s.Some? ==> m.Column0() in r && r[m.Column0()] == Str(s.value)
    ensures !Storable(m, insert) ==> r == row
    ensures SameOutside(row, r, m.columns)
  {
    if !Storable(m, insert) then row
    else if s.None? then RemoveCell(row, m.Column0())
    else row[m.Column0() := Str(s.value)]
  }

  // ---- the loops -----------------------------------------------------------------

  /** The `StringBuilder` loop of a collection or an array: `[`, the identities joined by `,`, `]`. */
  method BuildElementsText(elems: seq<Value>) returns (r: Result<string>)
    ensures r == ElementsText(elems)
  {
    var text := "[";
    ghost var ids: seq<string> := [];
    var i := 0;
    while i < |elems|
      invariant ElementsLoop(elems, i, text, ids)
      decreases |elems| - i
    {
      var next := IdOf(elems[i]);
      if next.Failure? {
        IdsStopAt(elems, i);
        return Failure(NotPersistable);
      }
      var id := next.value;
      ElementsLoopAdvance(elems, i, text, ids, id);
      text := text + id + (if i + 1 < |elems| then "," else "");
      ids := ids + [id];
      i := i + 1;
    }
    assert elems[..i] == elems;
    assert text + "]" == Bracket(Join(ids));
    return Success(text + "]");
  }

  /** What the collection and array loop has built after `i` elements. */
  ghost predicate ElementsLoop(elems: seq<Value>, i: nat, text: string, ids: seq<string>)
  {
    i <= |elems| &&
    Ids(elems[..i]) == Success(ids) &&
    text == "[" + Join(ids) + (if 0 < i < |elems| then "," else "")
  }

  lemma ElementsLoopAdvance(elems: seq<Value>, i: nat, text: string, ids: seq<string>, id: string)
    requires ElementsLoop(elems, i, text, ids) && i < |elems| && IdOf(elems[i]) == Success(id)
    ensures ElementsLoop(elems, i + 1, text + id + (if i + 1 < |elems| then "," else ""), ids + [id])
  {
    IdsSnoc(elems, i);
    JoinSnoc(ids, id);
    assert |ids| == i;
    ElementsTextStep(text, Join(ids), i == 0, id, i + 1 < |elems|);
  }

  /** Appending an identity, and the `,` when more follow, to `[` and the identities so far. */
  lemma ElementsTextStep(text: string, body: string, first: bool, id: string, more: bool)
    requires text == "[" + body + (if first then "" else ",")
    requires first ==> body == ""
    ensures text + id + (if more then "," else "") == "[" + (if first then id else body + "," + id) + (if more then "," else "")
  {
  }

  lemma IdsSnoc(elems: seq<Value>, i: nat)
    requires i < |elems| && Ids(elems[..i]).Success? && IdOf(elems[i]).Success?
    ensures Ids(elems[..i + 1]) == Success(Ids(elems[..i]).value + [IdOf(elems[i]).value])
  {
    assert elems[..i + 1][..i] == elems[..i];
  }

  lemma IdsStopAt(elems: seq<Value>, i: nat)
    requires i < |elems| && IdOf(elems[i]).Failure?
    ensures ElementsText(elems) == Failure(NotPersistable)
  {
  }

  /** The `StringBuilder` loop of a map: `[`, then `[k],[v]` per entry joined by `,`, then `]`. */
  method BuildMapText(m: Member, env: Env, entries: seq<(Value, Value)>) returns (r: Result<string>)
    ensures r == MapText(m, env, entries)
  {
    var text := "[";
    ghost var texts: seq<(string, string)> := [];
    var i := 0;
    while i < |entries|
      invariant MapLoop(m, env, entries, i, text, texts)
      decreases |entries| - i
    {
      var kv := EntryStrings(m, env, entries[i]);
      if kv.Failure? {
        EntriesStopAt(m, env, entries, i);
        return Failure(NotPersistable);
      }
      var (k, v) := kv.value;
      MapLoopAdvance(m, env, entries, i, text, texts, k, v);
      text := text + "[" + k + "],[" + v + "]" + (if i + 1 < |entries| then "," else "");
      texts := texts + [(k, v)];
      i := i + 1;
    }
    MapLoopDone(m, env, entries, text, texts);
    return Success(text + "]");
  }

  /** What the map loop has built after `i` entries. */
  ghost predicate MapLoop(m: Member, env: Env, entries: seq<(Value, Value)>, i: nat, text: string, texts: seq<(string, string)>)
  {
    i <= |entries| &&
    EntryTexts(m, env, entries[..i]) == Success(texts) &&
    text == "[" + Join(EntryParts(texts)) + (if 0 < i < |entries| then "," else "")
  }

  lemma MapLoopAdvance(m: Member, env: Env, entries: seq<(Value, Value)>, i: nat, text: string,
                       texts: seq<(string, string)>, k: string, v: string)
    requires MapLoop(m, env, entries, i, text, texts) && i < |entries|
    requires EntryText(m, env, entries[i]) == Success((k, v))
    ensures MapLoop(m, env, entries, i + 1, text + "[" + k + "],[" + v + "]" + (if i + 1 < |entries| then "," else ""),
                    texts + [(k, v)])
  {
    EntriesSnoc(m, env, entries, i);
    EntryPartsSnoc(texts, k, v);
    var body := Join(EntryParts(texts));
    assert i == 0 ==> texts == [];
    MapLoopStep(text, body, i == 0, k, v);
  }

  lemma MapLoopDone(m: Member, env: Env, entries: seq<(Value, Value)>, text: string, texts: seq<(string, string)>)
    requires MapLoop(m, env, entries, |entries|, text, texts)
    ensures Success(text + "]") == MapText(m, env, entries)
  {
    assert entries[..|entries|] == entries;
    assert text + "]" == Bracket(Join(EntryParts(texts)));
  }

  /** One pass of the map loop before the appends: the key and value texts of an entry. */
  method EntryStrings(m: Member, env: Env, e: (Value, Value)) returns (r: Result<(string, string)>)
    ensures r == EntryText(m, env, e)
  {
    var k: string, v: string;
    if m.keyPersistable {
      if !(e.0.VRef? || e.0.VNull?) {
        return Failure(NotPersistable);
      }
      k := if e.0.VRef? then e.0.target.id else "null";
    } else {
      k := JavaString(env, e.0);
    }
    if m.valuePersistable {
      if !(e.1.VRef? || e.1.VNull?) {
        return Failure(NotPersistable);
      }
      v := if e.1.VRef? then e.1.target.id else "null";
    } else {
      v := JavaString(env, e.1);
    }
    return Success((k, v));
  }

  /** Appending `[k],[v]` to `[` and the parts so far, with the `,` of the pass before. */
  lemma MapLoopStep(text: string, body: string, first: bool, k: string, v: string)
    requires text == "[" + body + (if first then "" else ",")
    requires first ==> body == ""
    ensures text + "[" + k + "],[" + v + "]" == "[" + ((if first then "" else body + ",") + (Bracket(k) + "," + Bracket(v)))
  {
  }

  lemma EntriesSnoc(m: Member, env: Env, entries: seq<(Value, Value)>, i: nat)
    requires i < |entries| && EntryTexts(m, env, entries[..i]).Success? && EntryText(m, env, entries[i]).Success?
    ensures EntryTexts(m, env, entries[..i + 1]) ==
            Success(EntryTexts(m, env, entries[..i]).value + [EntryText(m, env, entries[i]).value])
  {
    assert entries[..i + 1][..i] == entries[..i];
  }

  lemma EntriesStopAt(m: Member, env: Env, entries: seq<(Value, Value)>, i: nat)
    requires i < |entries| && EntryText(m, env, entries[i]).Failure?
    ensures MapText(m, env, entries) == Failure(NotPersistable)
  {
  }

  /** Whether the method's outcome and new row are the ones `spec` gives; a failure leaves the row as it was. */
  predicate Committed(r: Outcome, after: Row, before: Row, spec: Result<Row>)
  {
    match spec
    case Success(nr) => r == Done && after == nr
    case Failure(f) => r == Fail(f) && after == before
  }

  /**
   * The field manager of one insert or update: the row it writes into, the
   * class of the object, the framework's services, and whether it is an
   * insert.
   */
  class StoreFieldManager {
    var row: Row
    const cls: ClassMeta
    const env: Env
    const insert: bool

    /** The constructor taking an execution context: nothing is written. */
    constructor (cls: ClassMeta, env: Env, row: Row, insert: bool)
      ensures this.cls == cls && this.env == env && this.row == row && this.insert == insert
    {
      this.cls := cls;
      this.env := env;
      this.row := row;
      this.insert := insert;
    }

    /** The body of the constructor taking a state manager: the key cells. */
    method CreateKeyCells(embedded: bool) returns (r: Outcome)
      requires cls.Valid()
      modifies this
      ensures Committed(r, row, old(row), KeyCells(cls, old(row), embedded))
    {
      if embedded || cls.identity.Nondurable? {
        return Done;
      }
      if cls.identity.Datastore? {
        if cls.datastoreIdColumn !in row {
          row := row[cls.datastoreIdColumn := Blank];
        }
        return Done;
      }
      var built := BuildKeyCells(cls, row);
      if built.Failure? {
        return Fail(built.fault);
      }
      row := built.value;
      return Done;
    }

    /** The loop over the key members of an application identity. */
    static method BuildKeyCells(cls: ClassMeta, row: Row) returns (r: Result<Row>)
      requires cls.Valid()
      ensures r == KeyCellsFrom(cls, row, |cls.pkPositions|)
    {
      var work := row;
      for j := 0 to |cls.pkPositions|
        invariant KeyCellsFrom(cls, row, j) == Success(work)
      {
        var next := KeyCellStep(cls, row, j, work);
        if next.Failure? {
          return next;
        }
        work := next.value;
      }
      return Success(work);
    }

    /** One pass of the key loop: the `j`-th key member's cell created, or an embedded key refused. */
    static method KeyCellStep(cls: ClassMeta, row: Row, j: nat, work: Row) returns (next: Result<Row>)
      requires cls.Valid() && j < |cls.pkPositions| && KeyCellsFrom(cls, row, j) == Success(work)
      ensures next.Success? ==> next == KeyCellsFrom(cls, row, j + 1)
      ensures next.Failure? ==> next == KeyCellsFrom(cls, row, |cls.pkPositions|)
    {
      var pkMember := cls.members[cls.pkPositions[j]];
      if pkMember.relation != NoRelation && pkMember.embedded {
        return Failure(EmbeddedKey);
      }
      var col := pkMember.Column0();
      if col !in work {
        return Success(work[col := Blank]);
      }
      return Success(work);
    }

    method StoreBooleanField(p: nat, b: bool)
      requires cls.Valid() && p < |cls.members|
      modifies this
      ensures row == StoreCell(cls.members[p], insert, old(row), Bool(b))
    {
      if Storable(cls.members[p], insert) {
        row := row[cls.members[p].Column0() := Bool(b)];
      }
    }

    /**
     * `storeCharField`: a `char` widens to the `double` overload, so the cell
     * is numeric.  `c` is the UTF-16 code unit.
     */
    method StoreCharField(p: nat, c: int)
      requires cls.Valid() && p < |cls.members|
      requires 0 <= c < 0x1_0000
      modifies this
      ensures row == StoreCell(cls.members[p], insert, old(row), Num(c))
    {
      if Storable(cls.members[p], insert) {
        row := row[cls.members[p].Column0() := Num(c)];
      }
    }

    /**
     * `storeByteField`, `storeShortField`, `storeIntField`, `storeLongField`,
     * `storeFloatField` and `storeDoubleField`: each writes its value as a
     * `double`, so one method stands for all six.
     */
    method StoreNumberField(p: nat, n: int)
      requires cls.Valid() && p < |cls.members|
      modifies this
      ensures row == StoreCell(cls.members[p], insert, old(row), Num(n))
    {
      if Storable(cls.members[p], insert) {
        row := row[cls.members[p].Column0() := Num(n)];
      }
    }

    method StoreStringField(p: nat, s: Option<string>)
      requires cls.Valid() && p < |cls.members|
      modifies this
      ensures row == StoreString(cls.members[p], insert, old(row), s)
    {
      if Storable(cls.members[p], insert) {
        var col := cls.members[p].Column0();
        if s.None? {
          row := row - {col};
        } else {
          row := row[col := Str(s.value)];
        }
      }
    }

    /** The per-column loop of a multi-column converter, on a working copy of the row. */
    static method WriteComponents(start: Row, cols: seq<nat>, types: seq<JType>, vals: seq<Value>, env: Env)
        returns (r: Result<Row>)
      ensures r == StoreComponents(start, cols, types, vals, env, 0)
    {
      var work: Row := start;
      for i := 0 to |cols|
        invariant StoreComponents(start, cols, types, vals, env, 0) == StoreComponents(work, cols, types, vals, env, i)
      {
        if cols[i] !in work {
          work := work[cols[i] := Blank];
        }
        if i >= |vals| || i >= |types| {
          return Failure(IndexOutOfBounds);
        }
        var c := CellForType(types[i], vals[i], env);
        if c.Failure? {
          return Failure(c.fault);
        }
        if c.value.Some? {
          work := work[cols[i] := c.value.value];
        }
      }
      return Success(work);
    }

    /** `storeObjectField`: the skips and the embedded cases, then `storeObjectFieldInternal`. */
    method StoreObjectField(p: nat, v: Value) returns (r: Outcome)
      requires cls.Valid() && p < |cls.members|
      modifies this
      ensures Committed(r, row, old(row), StoreObject(cls, env, insert, old(row), p, v))
    {
      var m := cls.members[p];
      if !Storable(m, insert) {
        return Done;
      }
      if m.relation != NoRelation && m.embedded {
        if m.relation.SingleValued? {
          if !v.VNull? && !m.cascadePersist && !Reachable(v) {
            return Fail(NotCascaded);
          }
          return Done;
        }
        return Fail(Unsupported);
      }
      var written := WriteInternal(m, env, row, v);
      if written.Failure? {
        return Fail(written.fault);
      }
      row := written.value;
      return Done;
    }

    /** `storeObjectFieldInternal`: the row with value `v` of member `m` written, or the exception. */
    static method WriteInternal(m: Member, env: Env, row: Row, v: Value) returns (r: Result<Row>)
      requires |m.columns| > 0
      ensures r == StoreInternal(m, env, row, v)
    {
      var col := m.Column0();
      if m.relation.NoRelation? && m.converter.Some? {
        r := WriteConverted(m, env, row, v);
        return;
      }
      if v.VNull? {
        return Success(row - {col});
      }
      match m.relation {
        case NoRelation =>
          r := WritePlainCell(m, env, row, v);
        case SingleValued =>
          if !m.cascadePersist && !Reachable(v) {
            return Failure(NotCascaded);
          }
          if !v.VRef? {
            return Failure(NotPersistable);
          }
          return Success(row[col := Str(Bracket(v.target.id))]);
        case MultiValued =>
          r := WriteContainerCell(m, env, row, v);
      }
    }

    /** A value without relation or converter: the cell of its class, else the built-in converter's. */
    static method WritePlainCell(m: Member, env: Env, row: Row, v: Value) returns (r: Result<Row>)
      requires |m.columns| > 0 && m.relation.NoRelation? && m.converter.None? && !v.VNull?
      ensures r == StoreInternal(m, env, row, v)
    {
      var direct := CellForType(m.jtype, v, env);
      if direct.Failure? {
        return Failure(direct.fault);
      }
      var c := direct.value;
      if c.None? {
        var fallback := FallbackCell(m, env, v);
        if fallback.Failure? {
          return Failure(fallback.fault);
        }
        c := fallback.value;
      }
      return Success(PutOrBlank(row, m.Column0(), c));
    }

    /** A container value: its text in the cell, or the cell created without a value. */
    static method WriteContainerCell(m: Member, env: Env, row: Row, v: Value) returns (r: Result<Row>)
      requires |m.columns| > 0 && m.relation.MultiValued? && !v.VNull?
      ensures r == StoreInternal(m, env, row, v)
    {
      var text := BuildContainerText(m, env, v);
      if text.Failure? {
        return Failure(text.fault);
      }
      if text.value.None? {
        return Success(EnsureCell(row, m.Column0()));
      }
      return Success(row[m.Column0() := Str(text.value.value)]);
    }

    /** The converter branch: a `null` value removes the cell, else one cell or one per column. */
    static method WriteConverted(m: Member, env: Env, row: Row, v: Value) returns (r: Result<Row>)
      requires m.converter.Some? && |m.columns| > 0
      ensures r == StoreConverted(m, env, row, v)
    {
      var col := m.Column0();
      if v.VNull? {
        return Success(row - {col});
      }
      match m.converter.value {
        case Single(dt, conv) =>
          if |m.columns| != 1 {
            return Failure(ClassCast);
          }
          var c := CellForType(dt, conv.toDatastore(v), env);
          if c.Failure? {
            return Failure(c.fault);
          }
          return Success(PutOrBlank(row, col, c.value));
        case Multi(types, toColumns, _) =>
          if |m.columns| == 1 {
            return Success(EnsureCell(row, col));
          }
          r := WriteComponents(row, m.columns, types, toColumns(v), env);
      }
    }

    /** The container branch: the reachability loop of a collection, then the text built. */
    static method BuildContainerText(m: Member, env: Env, v: Value) returns (r: Result<Option<string>>)
      ensures r == ContainerText(m, env, v)
    {
      var text: Result<string>;
      match m.container {
        case NoContainer =>
          return Success(None);
        case CollectionOf =>
          if !v.VColl? {
            return Failure(ClassCast);
          }
          if !m.cascadePersist {
            for i := 0 to |v.elems|
              invariant forall k :: 0 <= k < i ==> Reachable(v.elems[k])
            {
              if !Reachable(v.elems[i]) {
                return Failure(NotCascaded);
              }
            }
          }
          text := BuildElementsText(v.elems);
        case MapOf =>
          if !v.VMap? {
            return Failure(ClassCast);
          }
          text := BuildMapText(m, env, v.entries);
        case ArrayOf =>
          if !v.VArr? {
            return Failure(ClassCast);
          }
          text := BuildElementsText(v.elems);
      }
      if text.Failure? {
        return Failure(text.fault);
      }
      return Success(Some(text.value));
    }
  }
}
