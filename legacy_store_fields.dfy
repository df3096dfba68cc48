/**
 * The older tree's `StoreFieldManager`.  It shares the reference format and
 * the primitive writes with the current one; it differs in refusing any
 * multi-column mapping up front, in removing the cell for every `null`
 * object value, in writing an enum as its ordinal or name itself, in having
 * no `String` branch of its own, and in making no reachability check on a
 * single reference.
 */
module LegacyStoreFields {
  import opened Outcomes
  import opened Values
  import opened Cells
  import opened Mapping
  import opened LegacyMapping
  import opened RefText
  import opened StoreFields

  /** The `Table` columns of the key fields, in key order. */
  function TableKeyColumns(cls: LegacyClass): (cols: seq<nat>)
    requires cls.Valid()
    ensures |cols| == |cls.pkPositions|
    ensures forall j :: 0 <= j < |cols| ==> cols[j] == cls.members[cls.pkPositions[j]].member.Column0()
  {
    seq(|cls.pkPositions|, j requires 0 <= j < |cls.pkPositions| => cls.members[cls.pkPositions[j]].member.Column0())
  }

  /** The first `n` of `cols` given a cell each, created blank where missing. */
  function EnsureCells(row: Row, cols: seq<nat>, n: nat): (r: Row)
    requires n <= |cols|
    ensures forall j :: 0 <= j < n ==> cols[j] in r
    ensures forall k :: k in row ==> k in r && r[k] == row[k]
    ensures forall k :: k in r && k !in row ==> r[k] == Blank && exists j :: 0 <= j < n && cols[j] == k
  {
    if n == 0 then row else EnsureCell(EnsureCells(row, cols, n - 1), cols[n - 1])
  }

  lemma EnsureCellsStep(row: Row, cols: seq<nat>, j: nat)
    requires j < |cols|
    ensures EnsureCells(row, cols, j + 1) == EnsureCell(EnsureCells(row, cols, j), cols[j])
  {
  }

  /**
   * The constructor taking a state manager: for an object that is not
   * embedded, a cell at every key field's column, or at the datastore
   * identity column.  Unlike the current tree an embedded key is not refused.
   */
  function TableKeyCells(cls: LegacyClass, row: Row, embedded: bool): (r: Row)
    requires cls.Valid()
    ensures embedded || cls.identity.Nondurable? ==> r == row
    ensures !embedded && cls.identity.Application? ==> forall j :: 0 <= j < |cls.pkPositions| ==> cls.members[cls.pkPositions[j]].member.Column0() in r
    ensures !embedded && cls.identity.Datastore? ==> cls.datastoreIdColumn in r
    ensures forall k :: k in row ==> k in r && r[k] == row[k]
  {
    if embedded || cls.identity.Nondurable? then row
    else if cls.identity.Datastore? then EnsureCell(row, cls.datastoreIdColumn)
    else EnsureCells(row, TableKeyColumns(cls), |cls.pkPositions|)
  }

  /**
   * The cell for a converter's datastore value: string, number, boolean or
   * date; `None` is the warning.  A number is cast to `Double` before it is
   * written, so a converter to any other number class fails on the cast.
   */
  function ConvertedCell(dt: JType, dv: Value, env: Env): (r: Result<Option<Cell>>)
    ensures !(dt.TString? || IsNumber(dt) || dt.TBoolean? || dt.TDate?) ==> r == Success(None)
    ensures IsNumber(dt) && !dt.TDouble? ==> r == Failure(ClassCast)
    ensures dt.TDouble? && dv.VNum? ==> r == Success(Some(Num(dv.n)))
    ensures dt.TString? && dv.VStr? ==> r == Success(Some(Str(dv.s)))
  {
    if IsNumber(dt) && !dt.TDouble? then Failure(ClassCast)
    else if dt.TString? || dt.TDouble? || dt.TBoolean? || dt.TDate? then CellForType(dt, dv, env)
    else Success(None)
  }

  /**
   * The cell for a non-null value of a plain member without converter: an
   * enum is its ordinal in a numeric column and its name otherwise; a
   * `String` member, having no branch here, and any class the dispatch does
   * not know go to the converter fallback.
   */
  function CellFor(m: Member, env: Env, v: Value): (r: Result<Option<Cell>>)
    ensures m.jtype.TEnum? && v.VEnum? ==> r == Success(Some(if m.numericColumn then Num(v.ordinal) else Str(v.name)))
    ensures m.jtype.TString? ==> r == FallbackCell(m, env, v)
  {
    var t := m.jtype;
    if t.TEnum? then
      match v
      case VEnum(ordinal, name) => Success(Some(if m.numericColumn then Num(ordinal) else Str(name)))
      case _ => Failure(ClassCast)
    else if t.TString? || !Handled(t) then FallbackCell(m, env, v)
    else CellForType(t, v, env)
  }

  /** For every other class both trees write the same cell for a non-null value. */
  lemma CellForAgreesWithCurrent(m: Member, env: Env, v: Value)
    requires Handled(m.jtype) && !m.jtype.TString? && !m.jtype.TEnum? && !v.VNull?
    ensures CellFor(m, env, v) == CellForType(m.jtype, v, env)
    ensures CellFor(m, env, v).Success? ==> CellFor(m, env, v).value.Some?
  {
  }

  /**
   * The text of a multi-valued member: the same formats as the current tree,
   * without the reachability check on collections; `None` for a member that
   * is none of collection, map and array.
   */
  function ContainerTextUnchecked(m: Member, env: Env, v: Value): (r: Result<Option<string>>)
    ensures m.container.NoContainer? ==> r == Success(None)
    ensures m.container.CollectionOf? && v.VColl? ==> r == (var t :- ElementsText(v.elems); Success(Some(t)))
    ensures m.cascadePersist ==> r == ContainerText(m, env, v)
  {
    match m.container
    case NoContainer => Success(None)
    case CollectionOf =>
      if !v.VColl? then Failure(ClassCast)
      else
        var t :- ElementsText(v.elems);
        Success(Some(t))
    case MapOf =>
      if !v.VMap? then Failure(ClassCast)
      else
        var t :- MapText(m, env, v.entries);
        Success(Some(t))
    case ArrayOf =>
      if !v.VArr? then Failure(ClassCast)
      else
        var t :- ElementsText(v.elems);
        Success(Some(t))
  }

  /**
   * `storeObjectFieldInCell`: a mapping of several columns is refused before
   * any cell changes; a `null` value removes the cell whatever the member;
   * otherwise the cell, created blank, is written by converter, by class, as
   * `[id]` or as the container text.
   */
  function StoreInCell(m: Member, env: Env, row: Row, v: Value): (r: Result<Row>)
    requires |m.columns| > 0
    ensures |m.columns| > 1 ==> r == Failure(Unsupported)
    ensures |m.columns| == 1 && v.VNull? ==> r == Success(RemoveCell(row, m.columns[0]))
    ensures |m.columns| == 1 && m.relation.SingleValued? && v.VRef? ==> r == Success(row[m.columns[0] := Str(Bracket(v.target.id))])
    ensures r.Success? ==> SameOutside(row, r.value, m.columns)
  {
    var col := m.columns[0];
    if |m.columns| > 1 then Failure(Unsupported)
    else if v.VNull? then Success(RemoveCell(row, col))
    else
      match m.relation
      case NoRelation =>
        if m.converter.Some? then
          match m.converter.value
          case Single(dt, conv) =>
            var c :- ConvertedCell(dt, conv.toDatastore(v), env);
            Success(PutOrBlank(row, col, c))
          case Multi(_, _, _) => Success(EnsureCell(row, col))
        else
          var c :- CellFor(m, env, v);
          Success(PutOrBlank(row, col, c))
      case SingleValued =>
        var id :- IdOf(v);
        Success(row[col := Str(Bracket(id))])
      case MultiValued =>
        var text :- ContainerTextUnchecked(m, env, v);
        Success(PutOrBlank(row, col, if text.Some? then Some(Str(text.value)) else None))
  }

  /**
   * `storeObjectField`: fields that are not storable are skipped; an
   * embedded single-valued relation goes to the embedded field manager
   * (whose writes are not part of this model); an embedded multi-valued one
   * is refused.
   */
  function StoreFieldValue(cls: LegacyClass, env: Env, insert: bool, row: Row, p: nat, v: Value): (r: Result<Row>)
    requires cls.Valid() && p < |cls.members|
    ensures r.Success? ==> SameOutside(row, r.value, cls.members[p].member.columns)
    ensures !Storable(cls.members[p].member, insert) ==> r == Success(row)
  {
    var m := cls.members[p].member;
    if !Storable(m, insert) then Success(row)
    else if EmbeddedRelation(m) then
      if m.relation.SingleValued? then Success(row) else Failure(Unsupported)
    else StoreInCell(m, env, row, v)
  }

  /**
   * Where the two trees part for a single reference: the older one writes
   * a reference that the current one refuses, and removes the cell for a
   * `null` reference even with cascade-persist disallowed.
   */
  lemma NoReachabilityCheck(m: Member, row: Row, o: ObjRef)
    requires |m.columns| == 1 && m.relation.SingleValued? && !m.cascadePersist && !o.persistent && !o.detached
    ensures StoreInCell(m, Env(_ => None, _ => "", _ => [], _ => None, _ => None, _ => "", v => v, v => v), row, VRef(o)) ==
            Success(row[m.columns[0] := Str(Bracket(o.id))])
    ensures StoreReference(m, row, VRef(o)) == Failure(NotCascaded)
  {
  }

  /** Every `null` object value removes the cell, a converter's or a container's too. */
  lemma NullAlwaysRemoves(cls: LegacyClass, env: Env, insert: bool, row: Row, p: nat)
    requires cls.Valid() && p < |cls.members|
    requires var m := cls.members[p].member; Storable(m, insert) && !EmbeddedRelation(m) && |m.columns| == 1
    ensures StoreFieldValue(cls, env, insert, row, p, VNull) == Success(RemoveCell(row, cls.members[p].member.Column0()))
  {
  }

  /** The field manager of one insert or update in the older tree. */
  class LegacyStoreFieldManager {
    var row: Row
    const cls: LegacyClass
    const env: Env
    const insert: bool

    /** The constructor taking a state manager, with its key-cell loop. */
    constructor (cls: LegacyClass, env: Env, row: Row, insert: bool, embedded: bool)
      requires cls.Valid()
      ensures this.cls == cls && this.env == env && this.insert == insert
      ensures this.row == TableKeyCells(cls, row, embedded)
    {
      this.cls := cls;
      this.env := env;
      this.insert := insert;
      var work := row;
      if !embedded {
        if cls.identity.Application? {
          work := CreateCells(row, TableKeyColumns(cls));
        } else if cls.identity.Datastore? {
          if cls.datastoreIdColumn !in work {
            work := work[cls.datastoreIdColumn := Blank];
          }
        }
      }
      this.row := work;
    }

    /** The key-cell loop: each column given a cell, created blank where missing. */
    static method CreateCells(row: Row, cols: seq<nat>) returns (work: Row)
      ensures work == EnsureCells(row, cols, |cols|)
    {
      work := row;
      for j := 0 to |cols|
        invariant work == EnsureCells(row, cols, j)
      {
        EnsureCellsStep(row, cols, j);
        if cols[j] !in work {
          work := work[cols[j] := Blank];
        }
      }
    }

    method StoreBooleanField(p: nat, b: bool)
      requires cls.Valid() && p < |cls.members|
      modifies this
      ensures row == StoreCell(cls.members[p].member, insert, old(row), Bool(b))
    {
      var m := cls.members[p].member;
      if Storable(m, insert) {
        row := row[m.Column0() := Bool(b)];
      }
    }

    /** `storeCharField`: the `char` widens to the `double` overload; `c` is the UTF-16 code unit. */
    method StoreCharField(p: nat, c: int)
      requires cls.Valid() && p < |cls.members|
      requires 0 <= c < 0x1_0000
      modifies this
      ensures row == StoreCell(cls.members[p].member, insert, old(row), Num(c))
    {
      var m := cls.members[p].member;
      if Storable(m, insert) {
        row := row[m.Column0() := Num(c)];
      }
    }

    /**
     * `storeByteField`, `storeShortField`, `storeIntField`, `storeFloatField`,
     * `storeDoubleField` and `storeLongField` (which casts to `double` itself).
     */
    method StoreNumberField(p: nat, n: int)
      requires cls.Valid() && p < |cls.members|
      modifies this
      ensures row == StoreCell(cls.members[p].member, insert, old(row), Num(n))
    {
      var m := cls.members[p].member;
      if Storable(m, insert) {
        row := row[m.Column0() := Num(n)];
      }
    }

    /** `storeStringField`: the cell is created, then removed again for `null`. */
    method StoreStringField(p: nat, s: Option<string>)
      requires cls.Valid() && p < |cls.members|
      modifies this
      ensures row == StoreString(cls.members[p].member, insert, old(row), s)
    {
      var m := cls.members[p].member;
      if Storable(m, insert) {
        var col := m.Column0();
        if col !in row {
          row := row[col := Blank];
        }
        if s.None? {
          row := row - {col};
        } else {
          row := row[col := Str(s.value)];
        }
      }
    }

    /** `storeObjectField`: the skips and the embedded cases, then `storeObjectFieldInCell`. */
    method StoreObjectField(p: nat, v: Value) returns (r: Outcome)
      requires cls.Valid() && p < |cls.members|
      modifies this
      ensures Committed(r, row, old(row), StoreFieldValue(cls, env, insert, old(row), p, v))
    {
      var m := cls.members[p].member;
      if !Storable(m, insert) {
        return Done;
      }
      if m.relation != NoRelation && m.embedded {
        if m.relation.SingleValued? {
          return Done;
        }
        return Fail(Unsupported);
      }
      var written := WriteInCell(m, env, row, v);
      if written.Failure? {
        return Fail(written.fault);
      }
      row := written.value;
      return Done;
    }

    /** `storeObjectFieldInCell`: the row with value `v` of member `m` written, or the exception. */
    static method WriteInCell(m: Member, env: Env, row: Row, v: Value) returns (r: Result<Row>)
      requires |m.columns| > 0
      ensures r == StoreInCell(m, env, row, v)
    {
      if |m.columns| > 1 {
        return Failure(Unsupported);
      }
      var col := m.Column0();
      if v.VNull? {
        return Success(row - {col});
      }
      match m.relation {
        case NoRelation =>
          r := WritePlainCell(m, env, row, v);
        case SingleValued =>
          if !v.VRef? {
            return Failure(NotPersistable);
          }
          return Success(row[col := Str("[" + v.target.id + "]")]);
        case MultiValued =>
          r := WriteContainerCell(m, env, row, v);
      }
    }

    /** A value without relation: the converter's cell, else the cell of its class. */
    static method WritePlainCell(m: Member, env: Env, row: Row, v: Value) returns (r: Result<Row>)
      requires |m.columns| == 1 && m.relation.NoRelation? && !v.VNull?
      ensures r == StoreInCell(m, env, row, v)
    {
      var c: Result<Option<Cell>>;
      if m.converter.Some? {
        match m.converter.value {
          case Single(dt, conv) =>
            c := ConvertedCell(dt, conv.toDatastore(v), env);
          case Multi(_, _, _) =>
            c := Success(None);
        }
      } else {
        c := CellFor(m, env, v);
      }
      if c.Failure? {
        return Failure(c.fault);
      }
      return Success(PutOrBlank(row, m.Column0(), c.value));
    }

    /** A container value: its text in the cell, or the cell created without a value. */
    static method WriteContainerCell(m: Member, env: Env, row: Row, v: Value) returns (r: Result<Row>)
      requires |m.columns| == 1 && m.relation.MultiValued? && !v.VNull?
      ensures r == StoreInCell(m, env, row, v)
    {
      var text: Result<string>;
      match m.container {
        case NoContainer =>
          return Success(EnsureCell(row, m.Column0()));
        case CollectionOf =>
          if !v.VColl? {
            return Failure(ClassCast);
          }
          text := BuildElementsText(v.elems);
        case MapOf =>
          if !v.VMap? {
            return Failure(ClassCast);
          }
          text := BuildMapText(m, env, v.entries);
        case ArrayOf =>
          if !v.VArr? {
            return Failure(ClassCast);
          }
          text := BuildElementsText(v.elems);
      }
      if text.Failure? {
        return Failure(text.fault);
      }
      return Success(row[m.Column0() := Str(text.value)]);
    }
  }
}
