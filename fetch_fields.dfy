/**
 * The current tree's `FetchFieldManager`: how field values are read back
 * from the cells of a located row.  The primitive reads and
 * `getValueFromCellOfType` are functions; the loops that rebuild a
 * collection, a map or an array from the reference format are methods
 * proved against functions.  The round-trip lemmas at the end show that
 * what `StoreFieldManager` writes reads back as the value it was given.
 */
module FetchFields {
  import opened Outcomes
  import opened Values
  import opened JavaNum
  import opened JavaText
  import opened Cells
  import opened Mapping
  import opened RefText
  import opened StoreFields

  // ---- fetch<Primitive>Field ----------------------------------------------------

  /** `fetchBooleanField`: `false` for an absent cell. */
  function FetchBoolean(row: Row, col: nat): (r: Result<bool>)
    ensures col !in row ==> r == Success(false)
    ensures col in row ==> (r.Success? <==> BoolOf(row[col]).Some?)
    ensures col in row && r.Success? ==> r.value == BoolOf(row[col]).value
  {
    if col !in row then Success(false)
    else
      match BoolOf(row[col])
      case Some(b) => Success(b)
      case None => Failure(WrongCellKind)
  }

  /**
   * The Java cast of a cell's `double` to the class of the field: `int` and
   * `long` (and a `BigInteger` built from `longValue()`) saturate, `short`
   * and `byte` wrap, the others keep the number.
   */
  function Narrow(t: JType, n: int): (r: int)
    ensures t.TInt? ==> InInt(r)
    ensures (t.TLong? || t.TBigInteger?) ==> InLong(r)
    ensures t.TShort? ==> InShort(r)
    ensures t.TByte? ==> InByte(r)
  {
    match t
    case TInt => Int32(n)
    case TLong => Int64(n)
    case TBigInteger => Int64(n)
    case TShort => Int16(n)
    case TByte => Int8(n)
    case _ => n
  }

  /** The numbers a field of class `t` holds, which its cast leaves alone. */
  predicate InRange(t: JType, n: int)
  {
    match t
    case TInt => InInt(n)
    case TLong => InLong(n)
    case TBigInteger => InLong(n)
    case TShort => InShort(n)
    case TByte => InByte(n)
    case _ => true
  }

  lemma NarrowInRange(t: JType, n: int)
    requires InRange(t, n)
    ensures Narrow(t, n) == n
  {
  }

  /**
   * `fetchByteField`, `fetchShortField`, `fetchIntField`, `fetchLongField`,
   * `fetchFloatField` and `fetchDoubleField`: `0` for an absent cell, else
   * the cell's number cast to the field's class.
   */
  function FetchNumber(row: Row, col: nat, t: JType): (r: Result<int>)
    ensures col !in row ==> r == Success(0)
    ensures col in row ==> (r.Success? <==> NumberOf(row[col]).Some?)
    ensures col in row && r.Success? ==> r.value == Narrow(t, NumberOf(row[col]).value)
  {
    if col !in row then Success(0)
    else
      match NumberOf(row[col])
      case Some(n) => Success(Narrow(t, n))
      case None => Failure(WrongCellKind)
  }

  /**
   * `fetchCharField`, as a UTF-16 code unit: `0` for an absent cell, the
   * number cast to `char` for a numeric cell, else the first character of
   * the text (an empty text is the index exception of `charAt(0)`).
   */
  function FetchChar(row: Row, col: nat): (r: Result<int>)
    ensures col !in row ==> r == Success(0)
    ensures col in row && row[col].Num? ==> r == Success(UInt16(row[col].n))
    ensures col in row && row[col].Str? && |row[col].s| > 0 ==> r == Success(row[col].s[0] as int)
    ensures r.Failure? ==> col in row && (row[col].Bool? || row[col].Date? || row[col].Blank? || row[col] == Str(""))
  {
    if col !in row then Success(0)
    else if row[col].Num? then Success(UInt16(row[col].n))
    else
      match StringOf(row[col])
      case None => Failure(WrongCellKind)
      case Some(s) => if |s| == 0 then Failure(IndexOutOfBounds) else Success(s[0] as int)
  }

  /** `fetchStringField`: `null` for an absent cell, else the cell's text. */
  function FetchString(row: Row, col: nat): (r: Result<Option<string>>)
    ensures col !in row ==> r == Success(None)
    ensures col in row ==> (r.Success? <==> StringOf(row[col]).Some?)
    ensures col in row && r.Success? ==> r.value == StringOf(row[col])
  {
    if col !in row then Success(None)
    else
      match StringOf(row[col])
      case Some(s) => Success(Some(s))
      case None => Failure(WrongCellKind)
  }

  // ---- getValueFromCellOfType ---------------------------------------------------

  function NumberRead(c: Cell): Result<int>
  {
    match NumberOf(c)
    case Some(n) => Success(n)
    case None => Failure(WrongCellKind)
  }

  function StringRead(c: Cell): Result<string>
  {
    match StringOf(c)
    case Some(s) => Success(s)
    case None => Failure(WrongCellKind)
  }

  /**
   * The end of `getValueFromCellOfType`, for a class none of its branches
   * returned for: a numeric cell through the `Long` converter, a non-empty
   * text through the `String` converter (a missing converter is the
   * `NullPointerException` of calling it), anything else `null`.
   */
  function ConvertedRead(env: Env, c: Cell, t: JType): (r: Result<Value>)
    ensures c.Blank? || c.Bool? || c.Date? || c == Str("") ==> r == Success(VNull)
  {
    match c
    case Num(n) =>
      (match env.longConverter(t)
       case Some(conv) => Success(conv.toMember(VNum(Int64(n))))
       case None => Failure(NullConverter))
    case Str(s) =>
      if |s| == 0 then Success(VNull)
      else
        (match env.stringConverter(t)
         case Some(conv) => Success(conv.toMember(VStr(s)))
         case None => Failure(NullConverter))
    case _ => Success(VNull)
  }

  /**
   * `getValueFromCellOfType`: the value of class `t` read from a present
   * cell, by the source's order of tests.  An enum is read as a number when
   * its column is numeric and as text otherwise, then mapped back by the
   * framework's enum conversion.
   */
  function ValueOfType(m: Member, env: Env, c: Cell, t: JType): (r: Result<Value>)
    ensures t.TString? ==> (r.Success? <==> StringOf(c).Some?)
    ensures t.TString? && r.Success? ==> r.value == VStr(StringOf(c).value)
    ensures IsNumber(t) && !t.TNumber? && r.Success? ==> NumberOf(c).Some? && r.value == VNum(Narrow(t, NumberOf(c).value))
    ensures (t.TDate? || t.TCalendar?) && c.Blank? ==> r == Success(VNull)
  {
    if t.TDate? then
      match DateOf(c)
      case None => Failure(WrongCellKind)
      case Some(None) => Success(VNull)
      case Some(Some(ms)) => Success(VDate(ms))
    else if t.TCalendar? then
      match DateOf(c)
      case None => Failure(WrongCellKind)
      case Some(None) => Success(VNull)
      case Some(Some(ms)) => Success(VCalendar(ms))
    else if t.TBoolean? then
      match BoolOf(c)
      case None => Failure(WrongCellKind)
      case Some(b) => Success(VBool(b))
    else if t.TString? then
      var s :- StringRead(c);
      Success(VStr(s))
    else if t.TChar? then
      var s :- StringRead(c);
      if |s| == 0 then Failure(IndexOutOfBounds) else Success(VChar(s[0]))
    else if IsNumber(t) then
      var n :- NumberRead(c);
      if t.TNumber? then ConvertedRead(env, c, t) else Success(VNum(Narrow(t, n)))
    else if t.TEnum? then
      var stored :- if m.numericColumn then (var n :- NumberRead(c); Success(VNum(n)))
                    else (var s :- StringRead(c); Success(VStr(s)));
      Success(env.enumFromStored(stored))
    else if t.TBytes? then
      var s :- StringRead(c);
      Success(VBytes(env.decode64(s)))
    else ConvertedRead(env, c, t)
  }

  // ---- type converters ------------------------------------------------------------

  /**
   * The datastore value a one-column converter is given, read by its
   * datastore class; `None` is the `null` left for a whitespace text and
   * for a class the code does not read (which only logs a warning).
   */
  function DatastoreRead(c: Cell, dt: JType): (r: Result<Option<Value>>)
    ensures dt.TString? && c.Str? && IsWhitespace(Some(c.s)) ==> r == Success(None)
    ensures !(dt.TString? || IsNumber(dt) || dt.TBoolean? || dt.TDate?) ==> r == Success(None)
  {
    if dt.TString? then
      var s :- StringRead(c);
      Success(if IsWhitespace(Some(s)) then None else Some(VStr(s)))
    else if IsNumber(dt) then
      var n :- NumberRead(c);
      Success(Some(VNum(n)))
    else if dt.TBoolean? then
      match BoolOf(c)
      case None => Failure(WrongCellKind)
      case Some(b) => Success(Some(VBool(b)))
    else if dt.TDate? then
      match DateOf(c)
      case None => Failure(WrongCellKind)
      case Some(None) => Success(Some(VNull))
      case Some(Some(ms)) => Success(Some(VDate(ms)))
    else Success(None)
  }

  /**
   * The first `n` components of a multi-column converter's value: `null`
   * for an absent cell, else the cell read as class `types[i]`.
   */
  function ReadComponents(m: Member, env: Env, row: Row, cols: seq<nat>, types: seq<JType>, n: nat): (r: Result<seq<Value>>)
    requires n <= |cols|
    ensures r.Success? ==> |r.value| == n
    ensures r.Success? ==> forall i :: 0 <= i < n && cols[i] !in row ==> r.value[i] == VNull
    ensures (forall i :: 0 <= i < n ==> cols[i] !in row) ==> r.Success?
  {
    if n == 0 then Success([])
    else
      var init :- ReadComponents(m, env, row, cols, types, n - 1);
      var col := cols[n - 1];
      if col !in row then Success(init + [VNull])
      else if n - 1 >= |types| then Failure(IndexOutOfBounds)
      else
        var v :- ValueOfType(m, env, row[col], types[n - 1]);
        Success(init + [v])
  }

  lemma ReadComponentsSnoc(m: Member, env: Env, row: Row, cols: seq<nat>, types: seq<JType>, n: nat, init: seq<Value>)
    requires n < |cols| && ReadComponents(m, env, row, cols, types, n) == Success(init)
    ensures ReadComponents(m, env, row, cols, types, n + 1) ==
      if cols[n] !in row then Success(init + [VNull])
      else if n >= |types| then Failure(IndexOutOfBounds)
      else match ValueOfType(m, env, row[cols[n]], types[n])
        case Success(v) => Success(init + [v])
        case Failure(f) => Failure(f)
  {
  }

  lemma {:induction false} ReadComponentsStays(m: Member, env: Env, row: Row, cols: seq<nat>, types: seq<JType>, k: nat, n: nat)
    requires k <= n <= |cols| && ReadComponents(m, env, row, cols, types, k).Failure?
    ensures ReadComponents(m, env, row, cols, types, n) == ReadComponents(m, env, row, cols, types, k)
    decreases n - k
  {
    if k < n {
      ReadComponentsStays(m, env, row, cols, types, k, n - 1);
    }
  }

  /** The component loop of the multi-column case: one array slot per column, filled in column order. */
  method ReadComponentsLoop(m: Member, env: Env, row: Row, types: seq<JType>) returns (r: Result<seq<Value>>)
    ensures r == ReadComponents(m, env, row, m.columns, types, |m.columns|)
  {
    var comps := new Value[|m.columns|](_ => VNull);
    for i := 0 to |m.columns|
      invariant ReadComponents(m, env, row, m.columns, types, i) == Success(comps[..i])
    {
      var outcome := ReadOne(m, env, row, types, comps, i);
      if outcome.Fail? {
        return Failure(outcome.fault);
      }
    }
    assert comps[..|m.columns|] == comps[..];
    return Success(comps[..]);
  }

  /** One pass of the component loop: slot `i` set from its column, or the loop's exception. */
  method ReadOne(m: Member, env: Env, row: Row, types: seq<JType>, comps: array<Value>, i: nat) returns (outcome: Outcome)
    requires i < |m.columns| == comps.Length
    requires ReadComponents(m, env, row, m.columns, types, i) == Success(comps[..i])
    modifies comps
    ensures outcome.Done? ==> ReadComponents(m, env, row, m.columns, types, i + 1) == Success(comps[..i + 1])
    ensures outcome.Fail? ==> ReadComponents(m, env, row, m.columns, types, |m.columns|) == Failure(outcome.fault)
  {
    ghost var before := comps[..i];
    ReadComponentsSnoc(m, env, row, m.columns, types, i, before);
    var col := m.columns[i];
    if col in row {
      if i >= |types| {
        ReadComponentsStays(m, env, row, m.columns, types, i + 1, |m.columns|);
        return Fail(IndexOutOfBounds);
      }
      var v := ValueOfType(m, env, row[col], types[i]);
      if v.Failure? {
        ReadComponentsStays(m, env, row, m.columns, types, i + 1, |m.columns|);
        return Fail(v.fault);
      }
      comps[i] := v.value;
    } else {
      comps[i] := VNull;
    }
    assert comps[..i + 1] == before + [comps[i]];
    return Done;
  }

  /** No cell of the converter's columns is present. */
  predicate NoneOfColumns(row: Row, cols: seq<nat>)
  {
    forall i :: 0 <= i < |cols| ==> cols[i] !in row
  }

  /**
   * A member with a type converter.  One column: an absent cell is `null`,
   * else the converter maps the datastore value back.  Several columns: the
   * value is `null` exactly when every column's cell is absent.
   */
  function FetchConverted(m: Member, env: Env, row: Row): (r: Result<Value>)
    requires m.converter.Some? && |m.columns| > 0
    ensures m.converter.value.Multi? && |m.columns| > 1 && |m.converter.value.columnTypes| > 0 && NoneOfColumns(row, m.columns) ==>
              r == Success(VNull)
    ensures |m.columns| == 1 && m.columns[0] !in row ==> r == Success(VNull)
  {
    var col := m.columns[0];
    match m.converter.value
    case Single(dt, conv) =>
      if |m.columns| == 1 then
        if col !in row then Success(VNull)
        else
          var dv :- DatastoreRead(row[col], dt);
          Success(if dv.None? then VNull else conv.toMember(dv.value))
      else Failure(ClassCast)
    case Multi(types, _, fromColumns) =>
      if |m.columns| == 1 then Success(VNull)
      else if |types| == 0 then Failure(IndexOutOfBounds)
      else
        var comps :- ReadComponents(m, env, row, m.columns, types, |m.columns|);
        if NoneOfColumns(row, m.columns) then Success(VNull) else Success(fromColumns(comps))
  }

  // ---- references -------------------------------------------------------------------

  /** Related objects as field values. */
  function Refs(os: seq<ObjRef>): (r: seq<Value>)
    ensures |r| == |os| && forall i :: 0 <= i < |os| ==> r[i] == VRef(os[i])
  {
    seq(|os|, i requires 0 <= i < |os| => VRef(os[i]))
  }

  lemma RefsSnoc(os: seq<ObjRef>, o: ObjRef)
    ensures Refs(os + [o]) == Refs(os) + [VRef(o)]
  {
  }

  /**
   * The elements of a collection or array: each identity resolved in order,
   * those that resolve to no object dropped, and whether any was dropped
   * (the `changeDetected` that marks the field dirty).
   */
  function ResolveAll(env: Env, comps: seq<string>): (r: (seq<ObjRef>, bool))
    ensures |r.0| <= |comps|
    ensures r.1 <==> exists i :: 0 <= i < |comps| && env.resolve(comps[i]).None?
    ensures !r.1 ==> |r.0| == |comps| && forall i :: 0 <= i < |comps| ==> env.resolve(comps[i]) == Some(r.0[i])
  {
    if |comps| == 0 then ([], false)
    else
      var init := comps[..|comps| - 1];
      assert forall i :: 0 <= i < |init| ==> init[i] == comps[i];
      var (os, changed) := ResolveAll(env, init);
      match env.resolve(comps[|comps| - 1])
      case Some(o) => (os + [o], changed)
      case None => (os, true)
  }

  /** A resolved element is kept: every object kept is one an identity resolved to. */
  lemma {:induction false} KeptAreResolved(env: Env, comps: seq<string>, k: nat)
    requires k < |ResolveAll(env, comps).0|
    ensures exists i :: 0 <= i < |comps| && env.resolve(comps[i]) == Some(ResolveAll(env, comps).0[k])
  {
    var init := comps[..|comps| - 1];
    var os := ResolveAll(env, init).0;
    if k < |os| {
      KeptAreResolved(env, init, k);
      var i :| 0 <= i < |init| && env.resolve(init[i]) == Some(os[k]);
      assert init[i] == comps[i];
    } else {
      assert env.resolve(comps[|comps| - 1]) == Some(ResolveAll(env, comps).0[k]);
    }
  }

  /** The collection loop: add each object that resolves, note any that does not. */
  method DecodeElements(env: Env, comps: seq<string>) returns (elems: seq<ObjRef>, changed: bool)
    ensures (elems, changed) == ResolveAll(env, comps)
  {
    elems, changed := [], false;
    for i := 0 to |comps|
      invariant (elems, changed) == ResolveAll(env, comps[..i])
    {
      ResolveAllStep(env, comps, i);
      var element := env.resolve(comps[i]);
      if element.Some? {
        elems := elems + [element.value];
      } else {
        changed := true;
      }
    }
    assert comps[..|comps|] == comps;
  }

  /** One pass of the element loop: the next identity either extends the kept objects or marks a change. */
  lemma ResolveAllStep(env: Env, comps: seq<string>, i: nat)
    requires i < |comps|
    ensures ResolveAll(env, comps[..i + 1]) ==
      match env.resolve(comps[i])
      case Some(o) => (ResolveAll(env, comps[..i]).0 + [o], ResolveAll(env, comps[..i]).1)
      case None => (ResolveAll(env, comps[..i]).0, true)
  {
    assert comps[..i + 1][..i] == comps[..i];
  }

  /** `System.arraycopy` into a new array of the first `n` slots. */
  method CopyOf(arr: array<Value>, n: nat) returns (b: array<Value>)
    requires n <= arr.Length
    ensures fresh(b) && b[..] == arr[..n]
  {
    b := new Value[n](_ => VNull);
    for j := 0 to n
      invariant b[..j] == arr[..j]
      modifies b
    {
      b[j] := arr[j];
    }
  }

  /**
   * The array loop: an array of one slot per identity filled from position
   * 0 with the objects that resolve, then, when any did not, copied into an
   * array of just the filled length.
   */
  method DecodeArray(env: Env, comps: seq<string>) returns (elems: seq<Value>, changed: bool)
    ensures elems == Refs(ResolveAll(env, comps).0)
    ensures changed == ResolveAll(env, comps).1
  {
    var arr, pos;
    arr, pos, changed := FillResolved(env, comps);
    if changed && pos < arr.Length {
      var shrunk := CopyOf(arr, pos);
      elems := shrunk[..];
    } else {
      assert arr[..] == arr[..pos];
      elems := arr[..];
    }
  }

  /** The filling half of the array loop: the first `pos` slots hold the objects that resolved. */
  method FillResolved(env: Env, comps: seq<string>) returns (arr: array<Value>, pos: nat, changed: bool)
    ensures fresh(arr) && arr.Length == |comps| && pos <= arr.Length
    ensures arr[..pos] == Refs(ResolveAll(env, comps).0)
    ensures changed == ResolveAll(env, comps).1
    ensures !changed ==> pos == |comps|
  {
    arr := new Value[|comps|](_ => VNull);
    pos := 0;
    changed := false;
    ghost var kept: seq<ObjRef> := [];
    for i := 0 to |comps|
      invariant Filled(env, comps, i, arr[..], pos, kept, changed)
    {
      pos, changed, kept := FillOne(env, comps, i, arr, pos, changed, kept);
    }
    assert comps[..|comps|] == comps;
  }

  /** What the array loop keeps: the first `pos` slots hold the objects the first `i` identities resolved to. */
  ghost predicate Filled(env: Env, comps: seq<string>, i: nat, slots: seq<Value>, pos: nat, kept: seq<ObjRef>, changed: bool)
  {
    i <= |comps| && pos <= i && |kept| == pos && |slots| == |comps| &&
    (kept, changed) == ResolveAll(env, comps[..i]) && slots[..pos] == Refs(kept)
  }

  /** One pass of the array loop: `Array.set(array, i++, element)` when the identity resolves. */
  method FillOne(env: Env, comps: seq<string>, i: nat, arr: array<Value>, pos: nat, changed: bool, ghost kept: seq<ObjRef>)
    returns (pos': nat, changed': bool, ghost kept': seq<ObjRef>)
    requires i < |comps| && Filled(env, comps, i, arr[..], pos, kept, changed)
    modifies arr
    ensures Filled(env, comps, i + 1, arr[..], pos', kept', changed')
  {
    ResolveAllStep(env, comps, i);
    var element := env.resolve(comps[i]);
    if element.Some? {
      ghost var before := arr[..pos];
      arr[pos] := VRef(element.value);
      assert arr[..pos + 1] == before + [VRef(element.value)];
      RefsSnoc(kept, element.value);
      pos', changed', kept' := pos + 1, changed, kept + [element.value];
    } else {
      pos', changed', kept' := pos, true, kept;
    }
  }

  // ---- maps ---------------------------------------------------------------------------

  /** `s.substring(1, s.length() - 1)`: the index exception for fewer than two characters. */
  function Strip(s: string): (r: Result<string>)
    ensures r.Success? <==> |s| >= 2
    ensures r.Success? ==> r.value == s[1..|s| - 1]
  {
    if |s| < 2 then Failure(IndexOutOfBounds) else Success(s[1..|s| - 1])
  }

  /** `Enum.valueOf`: the constant with that name, with its ordinal. */
  function EnumConstant(constants: seq<string>, name: string): (r: Option<Value>)
    ensures r.Some? <==> name in constants
    ensures r.Some? ==> r.value.VEnum? && r.value.ordinal < |constants| && constants[r.value.ordinal] == name && r.value.name == name
  {
    if |constants| == 0 then None
    else if constants[0] == name then Some(VEnum(0, name))
    else
      match EnumConstant(constants[1..], name)
      case Some(VEnum(k, n)) => Some(VEnum(k + 1, n))
      case _ => None
  }

  /** A map key or value read back: an object, or a reference that resolves to none. */
  datatype Slot = Found(v: Value) | Dangling

  /**
   * A key or value text of a map: resolved when its class is persistable,
   * else taken as the constant of an enum class or as a `String`, any other
   * class being refused.
   */
  function DecodeSlot(persistable: bool, t: JType, constants: seq<string>, env: Env, text: string): (r: Result<Slot>)
    ensures persistable ==> r.Success? && (r.value.Dangling? <==> env.resolve(text).None?)
    ensures !persistable && !t.TEnum? && !t.TString? ==> r == Failure(Unsupported)
    ensures !persistable && t.TString? ==> r == Success(Found(VStr(text)))
  {
    if persistable then
      match env.resolve(text)
      case Some(o) => Success(Found(VRef(o)))
      case None => Success(Dangling)
    else if t.TEnum? then
      match EnumConstant(constants, text)
      case Some(e) => Success(Found(e))
      case None => Failure(NoEnumConstant(text))
    else if t.TString? then Success(Found(VStr(text)))
    else Failure(Unsupported)
  }

  /** `map.put`: a new key goes at the end; an existing key keeps its place and gets the new value. */
  function PutEntry(entries: seq<(Value, Value)>, k: Value, v: Value): (r: seq<(Value, Value)>)
    ensures (forall i :: 0 <= i < |entries| ==> entries[i].0 != k) ==> r == entries + [(k, v)]
    ensures (exists i :: 0 <= i < |entries| && entries[i].0 == k) ==> |r| == |entries|
    ensures |r| <= |entries| + 1
  {
    if |entries| == 0 then [(k, v)]
    else if entries[0].0 == k then [(k, v)] + entries[1..]
    else
      assert forall i :: 0 <= i < |entries| - 1 ==> entries[1..][i] == entries[i + 1];
      [entries[0]] + PutEntry(entries[1..], k, v)
  }

  /** One key component and one value component, each stripped of its brackets and decoded. */
  function DecodePair(m: Member, env: Env, keyCmpt: string, valCmpt: string): (r: Result<(Slot, Slot)>)
  {
    var keyStr :- Strip(keyCmpt);
    var valStr :- Strip(valCmpt);
    var key :- DecodeSlot(m.keyPersistable, m.keyType, m.keyConstants, env, keyStr);
    var val :- DecodeSlot(m.valuePersistable, m.valueType, m.valueConstants, env, valStr);
    Success((key, val))
  }

  /** The body of one pass of the map loop, up to the put. */
  method DecodeOnePair(m: Member, env: Env, keyCmpt: string, valCmpt: string) returns (r: Result<(Slot, Slot)>)
    ensures r == DecodePair(m, env, keyCmpt, valCmpt)
  {
    if |keyCmpt| < 2 || |valCmpt| < 2 {
      return Failure(IndexOutOfBounds);
    }
    var keyStr := keyCmpt[1..|keyCmpt| - 1];
    var valStr := valCmpt[1..|valCmpt| - 1];
    var key := DecodeSlot(m.keyPersistable, m.keyType, m.keyConstants, env, keyStr);
    if key.Failure? {
      return Failure(key.fault);
    }
    var val := DecodeSlot(m.valuePersistable, m.valueType, m.valueConstants, env, valStr);
    if val.Failure? {
      return Failure(val.fault);
    }
    return Success((key.value, val.value));
  }

  /**
   * The map loop from the current state on: components taken in pairs, each
   * stripped of its first and last character, the entry put only when both
   * key and value resolve; an odd count is the index exception of reading
   * the missing value.
   */
  function DecodeEntries(m: Member, env: Env, acc: seq<(Value, Value)>, changed: bool, comps: seq<string>): (r: Result<(seq<(Value, Value)>, bool)>)
    ensures r.Success? ==> |r.value.0| <= |acc| + |comps| / 2
    ensures changed && r.Success? ==> r.value.1
    ensures |comps| % 2 == 1 ==> r.Failure?
    decreases |comps|
  {
    if |comps| == 0 then Success((acc, changed))
    else if |comps| == 1 then Failure(IndexOutOfBounds)
    else
      var (key, val) :- DecodePair(m, env, comps[0], comps[1]);
      var next := if key.Found? && val.Found? then PutEntry(acc, key.v, val.v) else acc;
      assert |next| <= |acc| + 1 && |comps[2..]| / 2 + 1 == |comps| / 2;
      DecodeEntries(m, env, next, changed || key.Dangling? || val.Dangling?, comps[2..])
  }

  /** The map loop, stepping two components per pass. */
  method DecodeMap(m: Member, env: Env, comps: seq<string>) returns (r: Result<(seq<(Value, Value)>, bool)>)
    ensures r == DecodeEntries(m, env, [], false, comps)
  {
    var map_: seq<(Value, Value)> := [];
    var changed := false;
    var i := 0;
    while i < |comps|
      invariant 0 <= i <= |comps|
      invariant DecodeEntries(m, env, [], false, comps) == DecodeEntries(m, env, map_, changed, comps[i..])
      decreases |comps| - i
    {
      var keyCmpt := comps[i];
      i := i + 1;
      if i >= |comps| {
        return Failure(IndexOutOfBounds);
      }
      var valCmpt := comps[i];
      assert comps[i - 1..][2..] == comps[i + 1..];
      var pair := DecodeOnePair(m, env, keyCmpt, valCmpt);
      if pair.Failure? {
        return Failure(pair.fault);
      }
      var (key, val) := pair.value;
      if key.Dangling? || val.Dangling? {
        changed := true;
      }
      if key.Found? && val.Found? {
        map_ := PutEntry(map_, key.v, val.v);
      }
      i := i + 1;
    }
    return Success((map_, changed));
  }

  // ---- fetchObjectField ----------------------------------------------------------------

  /**
   * A bracketed multi-valued text without its brackets, cut into components
   * (none for an empty text) and rebuilt by the container kind; anything but
   * a collection, a map or an array is refused.
   */
  function DecodeContainer(m: Member, env: Env, body: string): (r: Result<(Value, bool)>)
    ensures m.container.NoContainer? ==> r == Failure(Unsupported)
  {
    var comps := Components(body);
    var list := if comps.Some? then comps.value else [];
    match m.container
    case CollectionOf =>
      var (os, changed) := ResolveAll(env, list);
      Success((VColl(Refs(os)), changed))
    case ArrayOf =>
      var (os, changed) := ResolveAll(env, list);
      Success((VArr(Refs(os)), changed))
    case MapOf =>
      var decoded :- DecodeEntries(m, env, [], false, list);
      Success((VMap(decoded.0), decoded.1))
    case NoContainer => Failure(Unsupported)
  }

  /**
   * `fetchObjectFieldInternal`: the value of member `m` read from the row,
   * and whether the field must be marked dirty because a reference was
   * dropped.  A single reference that resolves to nothing reads as `null`;
   * a multi-valued text that is not bracketed is refused.
   */
  function FetchInternal(m: Member, env: Env, row: Row): (r: Result<(Value, bool)>)
    requires |m.columns| > 0
    ensures m.columns[0] !in row && !(m.relation.NoRelation? && m.converter.Some? && |m.columns| > 1) ==> r == Success((VNull, false))
    ensures r.Success? && r.value.1 ==> m.relation.MultiValued?
  {
    var col := m.columns[0];
    match m.relation
    case NoRelation =>
      if m.converter.Some? then
        var v :- FetchConverted(m, env, row);
        Success((v, false))
      else if col !in row then Success((VNull, false))
      else
        var v :- ValueOfType(m, env, row[col], m.jtype);
        Success((v, false))
    case SingleValued =>
      if col !in row then Success((VNull, false))
      else
        var s :- StringRead(row[col]);
        if !IsBracketed(s) then Success((VNull, false))
        else
          (match env.resolve(Unbracket(s))
           case Some(o) => Success((VRef(o), false))
           case None => Success((VNull, false)))
    case MultiValued =>
      if col !in row then Success((VNull, false))
      else
        var s :- StringRead(row[col]);
        if !IsBracketed(s) then Failure(Unsupported)
        else DecodeContainer(m, env, Unbracket(s))
  }

  /**
   * `fetchObjectField`: an embedded multi-valued relation is refused; any
   * other member not embedded is read by `FetchInternal`.
   */
  function FetchObject(cls: ClassMeta, env: Env, row: Row, p: nat): (r: Result<(Value, bool)>)
    requires cls.Valid() && p < |cls.members|
    requires !(EmbeddedRelation(cls.members[p]) && cls.members[p].relation.SingleValued?)
    ensures EmbeddedRelation(cls.members[p]) ==> r == Failure(Unsupported)
  {
    var m := cls.members[p];
    if EmbeddedRelation(m) then Failure(Unsupported) else FetchInternal(m, env, row)
  }

  // ---- round trips ----------------------------------------------------------------------

  /**
   * A value of class `t` that the cell codec carries unchanged: a number the
   * field's class holds, a value of the matching kind, an enum whose stored
   * form is of the column's kind and maps back, bytes the encoder and
   * decoder give back.
   */
  predicate Representable(t: JType, v: Value, env: Env, numericColumn: bool)
  {
    (IsNumber(t) && !t.TNumber? && v.VNum? && InRange(t, v.n)) ||
    (t.TChar? && v.VChar?) ||
    (t.TBoolean? && v.VBool?) ||
    (t.TDate? && v.VDate?) ||
    (t.TCalendar? && v.VCalendar?) ||
    (t.TString? && v.VStr?) ||
    (t.TEnum? && v.VEnum? && env.enumFromStored(env.enumToStored(v)) == v &&
      (if numericColumn then env.enumToStored(v).VNum? else env.enumToStored(v).VStr?)) ||
    (t.TBytes? && v.VBytes? && env.decode64(env.encode64(v.bytes)) == v.bytes)
  }

  /** `getValueFromCellOfType` reads back what `setValueInCellForType` wrote. */
  lemma CellRoundTrip(m: Member, env: Env, t: JType, v: Value)
    requires Representable(t, v, env, m.numericColumn)
    ensures CellForType(t, v, env).Success? && CellForType(t, v, env).value.Some?
    ensures ValueOfType(m, env, CellForType(t, v, env).value.value, t) == Success(v)
  {
  }

  /** A stored member of a plain class without a converter reads back as the value stored, `null` included. */
  lemma PlainFieldRoundTrip(cls: ClassMeta, env: Env, insert: bool, row: Row, p: nat, v: Value)
    requires cls.Valid() && p < |cls.members|
    requires var m := cls.members[p];
      Storable(m, insert) && m.relation.NoRelation? && m.converter.None? &&
      (v.VNull? || Representable(m.jtype, v, env, m.numericColumn))
    ensures StoreObject(cls, env, insert, row, p, v).Success?
    ensures FetchObject(cls, env, StoreObject(cls, env, insert, row, p, v).value, p) == Success((v, false))
  {
    var m := cls.members[p];
    if !v.VNull? {
      CellRoundTrip(m, env, m.jtype, v);
    }
  }

  /**
   * A single reference reads back as the object stored when its identity
   * resolves to it, and as `null` when it resolves to nothing.
   */
  lemma ReferenceRoundTrip(cls: ClassMeta, env: Env, insert: bool, row: Row, p: nat, o: ObjRef)
    requires cls.Valid() && p < |cls.members|
    requires var m := cls.members[p];
      Storable(m, insert) && m.relation.SingleValued? && !m.embedded && (m.cascadePersist || o.persistent || o.detached)
    ensures StoreObject(cls, env, insert, row, p, VRef(o)).Success?
    ensures FetchObject(cls, env, StoreObject(cls, env, insert, row, p, VRef(o)).value, p) ==
            Success((if env.resolve(o.id).Some? then VRef(env.resolve(o.id).value) else VNull, false))
  {
    UnbracketBracket(o.id);
  }

  /** References whose identities are tokens and each resolve to the object they came from. */
  predicate Resolvable(env: Env, elems: seq<Value>)
  {
    forall i :: 0 <= i < |elems| ==>
      elems[i].VRef? && IsToken(elems[i].target.id) && env.resolve(elems[i].target.id) == Some(elems[i].target)
  }

  lemma {:induction false} ResolveAllOfResolvable(env: Env, elems: seq<Value>, ids: seq<string>)
    requires Resolvable(env, elems)
    requires |ids| == |elems| && forall i :: 0 <= i < |elems| ==> ids[i] == elems[i].target.id
    ensures ResolveAll(env, ids).1 == false
    ensures Refs(ResolveAll(env, ids).0) == elems
  {
    var (os, changed) := ResolveAll(env, ids);
    assert !changed;
    assert forall i :: 0 <= i < |elems| ==> Refs(os)[i] == elems[i];
  }

  /** The text of a collection or array of resolvable references cuts back into its identities. */
  lemma ElementsTextDecodes(env: Env, elems: seq<Value>)
    requires Resolvable(env, elems)
    ensures ElementsText(elems).Success?
    ensures IsBracketed(ElementsText(elems).value)
    ensures var text := ElementsText(elems).value;
      ResolveAll(env, if Components(Unbracket(text)).Some? then Components(Unbracket(text)).value else []) ==
      ResolveAll(env, Ids(elems).value)
    ensures Refs(ResolveAll(env, Ids(elems).value).0) == elems && !ResolveAll(env, Ids(elems).value).1
  {
    var ids := Ids(elems).value;
    assert AllTokens(ids);
    UnbracketBracket(Join(ids));
    ComponentsOfJoin(ids);
    ResolveAllOfResolvable(env, elems, ids);
  }

  /** The text of resolvable references decodes back to them, as a collection or as an array. */
  lemma ElementsContainerDecodes(m: Member, env: Env, elems: seq<Value>)
    requires m.container.CollectionOf? || m.container.ArrayOf?
    requires Resolvable(env, elems)
    ensures ElementsText(elems).Success?
    ensures DecodeContainer(m, env, Unbracket(ElementsText(elems).value)) ==
            Success((if m.container.ArrayOf? then VArr(elems) else VColl(elems), false))
  {
    ElementsTextDecodes(env, elems);
  }

  /**
   * A collection of references whose identities resolve back reads back as
   * the same elements in the same order, with no field marked dirty.
   */
  lemma CollectionRoundTrip(cls: ClassMeta, env: Env, insert: bool, row: Row, p: nat, elems: seq<Value>)
    requires cls.Valid() && p < |cls.members|
    requires var m := cls.members[p];
      Storable(m, insert) && m.relation.MultiValued? && !m.embedded && m.container.CollectionOf? &&
      (m.cascadePersist || forall i :: 0 <= i < |elems| ==> Reachable(elems[i]))
    requires Resolvable(env, elems)
    ensures StoreObject(cls, env, insert, row, p, VColl(elems)).Success?
    ensures FetchObject(cls, env, StoreObject(cls, env, insert, row, p, VColl(elems)).value, p) == Success((VColl(elems), false))
  {
    var m := cls.members[p];
    ElementsContainerDecodes(m, env, elems);
    var text := ElementsText(elems).value;
    assert ContainerText(m, env, VColl(elems)) == Success(Some(text));
    StoredContainer(cls, env, insert, row, p, VColl(elems), text);
  }

  /** An array of resolvable references reads back likewise; arrays have no reachability check. */
  lemma ArrayRoundTrip(cls: ClassMeta, env: Env, insert: bool, row: Row, p: nat, elems: seq<Value>)
    requires cls.Valid() && p < |cls.members|
    requires var m := cls.members[p];
      Storable(m, insert) && m.relation.MultiValued? && !m.embedded && m.container.ArrayOf?
    requires Resolvable(env, elems)
    ensures StoreObject(cls, env, insert, row, p, VArr(elems)).Success?
    ensures FetchObject(cls, env, StoreObject(cls, env, insert, row, p, VArr(elems)).value, p) == Success((VArr(elems), false))
  {
    var m := cls.members[p];
    ElementsContainerDecodes(m, env, elems);
    var text := ElementsText(elems).value;
    assert ContainerText(m, env, VArr(elems)) == Success(Some(text));
    StoredContainer(cls, env, insert, row, p, VArr(elems), text);
  }

  /**
   * The array branch as the code has it: before the first component it asks
   * the member's collection metadata for the element class, and an array
   * member has array metadata instead, so any text with components
   * dereferences `null`.  Only the empty text gives an array, the empty one.
   */
  function DecodeArrayAsWritten(body: string): (r: Result<(Value, bool)>)
    ensures r.Success? ==> r.value == (VArr([]), false)
  {
    if Components(body).Some? then Failure(NoCollectionMetaData) else Success((VArr([]), false))
  }

  /**
   * As written, no array holding an element reads back: the text stored for
   * it has components, so the array branch fails where the corrected
   * decoder gives the array back.
   */
  lemma StoredArrayRefusedAsWritten(m: Member, env: Env, elems: seq<Value>)
    requires m.container.ArrayOf? && Resolvable(env, elems) && |elems| > 0
    ensures ElementsText(elems).Success?
    ensures DecodeArrayAsWritten(Unbracket(ElementsText(elems).value)) == Failure(NoCollectionMetaData)
    ensures DecodeContainer(m, env, Unbracket(ElementsText(elems).value)) == Success((VArr(elems), false))
  {
    ElementsContainerDecodes(m, env, elems);
    StoredElementsHaveComponents(env, elems);
  }

  /** The stored text of resolvable references has one component per reference. */
  lemma StoredElementsHaveComponents(env: Env, elems: seq<Value>)
    requires Resolvable(env, elems)
    ensures ElementsText(elems).Success?
    ensures var body := Unbracket(ElementsText(elems).value);
      |elems| > 0 ==> Components(body).Some? && |Components(body).value| == |elems|
  {
    ElementsTextDecodes(env, elems);
    var ids := Ids(elems).value;
    assert |ResolveAll(env, ids).0| == |elems|;
  }

  /** A multi-valued member written as `text` reads back as that text decoded. */
  lemma StoredContainer(cls: ClassMeta, env: Env, insert: bool, row: Row, p: nat, v: Value, text: string)
    requires cls.Valid() && p < |cls.members|
    requires var m := cls.members[p];
      Storable(m, insert) && m.relation.MultiValued? && !m.embedded && !v.VNull? &&
      ContainerText(m, env, v) == Success(Some(text))
    ensures var after := PutOrBlank(row, cls.members[p].columns[0], Some(Str(text)));
      StoreObject(cls, env, insert, row, p, v) == Success(after) &&
      FetchObject(cls, env, after, p) == DecodeContainer(cls.members[p], env, Unbracket(text))
  {
  }

  /** The model of the dangling-reference rule: what is kept, and when the field is marked dirty. */
  lemma DanglingDropped(env: Env, comps: seq<string>)
    ensures ResolveAll(env, comps).1 <==> exists i :: 0 <= i < |comps| && env.resolve(comps[i]).None?
    ensures |ResolveAll(env, comps).0| < |comps| <==> ResolveAll(env, comps).1
  {
    var (os, changed) := ResolveAll(env, comps);
    if changed {
      DroppedShortens(env, comps);
    }
  }

  lemma {:induction false} DroppedShortens(env: Env, comps: seq<string>)
    requires ResolveAll(env, comps).1
    ensures |ResolveAll(env, comps).0| < |comps|
  {
    var init := comps[..|comps| - 1];
    assert forall i :: 0 <= i < |init| ==> init[i] == comps[i];
    if ResolveAll(env, init).1 {
      DroppedShortens(env, init);
    }
  }

  // ---- map round trip ----------------------------------------------------------------

  /** A key or value that reads back as itself from its stored text. */
  predicate SlotRoundTrips(persistable: bool, t: JType, constants: seq<string>, env: Env, v: Value, text: string)
  {
    ',' !in text &&
    DecodeSlot(persistable, t, constants, env, text) == Success(Found(v))
  }

  predicate DistinctKeys(entries: seq<(Value, Value)>)
  {
    forall i, j :: 0 <= i < j < |entries| ==> entries[i].0 != entries[j].0
  }

  lemma {:induction false} EntryPartsTail(texts: seq<(string, string)>)
    requires |texts| > 0
    ensures EntryParts(texts)[2..] == EntryParts(texts[1..])
    ensures EntryParts(texts)[0] == Bracket(texts[0].0) && EntryParts(texts)[1] == Bracket(texts[0].1)
  {
    var n := |texts|;
    if n > 1 {
      var init, last := texts[..n - 1], texts[n - 1];
      assert texts == init + [last] && texts[1..] == init[1..] + [last];
      EntryPartsUnfold(init, last.0, last.1);
      EntryPartsUnfold(init[1..], last.0, last.1);
      EntryPartsTail(init);
      SkipTwo(EntryParts(init), [Bracket(last.0), Bracket(last.1)]);
    } else {
      assert texts[1..] == [];
    }
  }

  /** Dropping the first two of a concatenation whose left side has at least two. */
  lemma SkipTwo(front: seq<string>, back: seq<string>)
    requires |front| >= 2
    ensures (front + back)[2..] == front[2..] + back && (front + back)[0] == front[0] && (front + back)[1] == front[1]
  {
  }

  /** One pass of the map loop over an entry whose key and value both decode. */
  lemma DecodeEntriesStep(m: Member, env: Env, acc: seq<(Value, Value)>, changed: bool, comps: seq<string>,
                          ks: string, vs: string, k: Value, v: Value)
    requires |comps| >= 2 && Strip(comps[0]) == Success(ks) && Strip(comps[1]) == Success(vs)
    requires DecodeSlot(m.keyPersistable, m.keyType, m.keyConstants, env, ks) == Success(Found(k))
    requires DecodeSlot(m.valuePersistable, m.valueType, m.valueConstants, env, vs) == Success(Found(v))
    ensures DecodeEntries(m, env, acc, changed, comps) == DecodeEntries(m, env, PutEntry(acc, k, v), changed, comps[2..])
  {
  }

  /** Moving the first entry into the accumulator keeps the keys distinct, and it is new to it. */
  lemma DistinctShift(acc: seq<(Value, Value)>, entries: seq<(Value, Value)>)
    requires |entries| > 0 && DistinctKeys(acc + entries)
    ensures PutEntry(acc, entries[0].0, entries[0].1) == acc + [entries[0]]
    ensures (acc + [entries[0]]) + entries[1..] == acc + entries
  {
    var k := entries[0].0;
    forall i | 0 <= i < |acc|
      ensures acc[i].0 != k
    {
      assert (acc + entries)[i] == acc[i];
      assert (acc + entries)[|acc|] == entries[0];
    }
    assert (acc + [entries[0]]) + entries[1..] == acc + entries;
  }

  lemma {:induction false} DecodeEntriesOfParts(m: Member, env: Env, acc: seq<(Value, Value)>, entries: seq<(Value, Value)>, texts: seq<(string, string)>)
    requires |entries| == |texts|
    requires forall i :: 0 <= i < |entries| ==>
      SlotRoundTrips(m.keyPersistable, m.keyType, m.keyConstants, env, entries[i].0, texts[i].0) &&
      SlotRoundTrips(m.valuePersistable, m.valueType, m.valueConstants, env, entries[i].1, texts[i].1)
    requires DistinctKeys(acc + entries)
    ensures DecodeEntries(m, env, acc, false, EntryParts(texts)) == Success((acc + entries, false))
    decreases |texts|
  {
    if |texts| > 0 {
      EntryPartsTail(texts);
      var parts := EntryParts(texts);
      UnbracketBracket(texts[0].0);
      UnbracketBracket(texts[0].1);
      assert Strip(parts[0]) == Success(texts[0].0);
      assert Strip(parts[1]) == Success(texts[0].1);
      var k, v := entries[0].0, entries[0].1;
      DecodeEntriesStep(m, env, acc, false, parts, texts[0].0, texts[0].1, k, v);
      var next := acc + [(k, v)];
      DistinctShift(acc, entries);
      DecodeEntriesOfParts(m, env, next, entries[1..], texts[1..]);
    } else {
      assert acc + entries == acc;
    }
  }

  /**
   * A map whose keys are distinct and whose keys and values read back from
   * their texts (persistable ones through identities that resolve to them)
   * reads back as the same entries, with no field marked dirty.
   */
  lemma MapRoundTrip(cls: ClassMeta, env: Env, insert: bool, row: Row, p: nat, entries: seq<(Value, Value)>)
    requires cls.Valid() && p < |cls.members|
    requires var m := cls.members[p];
      Storable(m, insert) && m.relation.MultiValued? && !m.embedded && m.container.MapOf? &&
      EntryTexts(m, env, entries).Success? &&
      (forall i :: 0 <= i < |entries| ==>
        SlotRoundTrips(m.keyPersistable, m.keyType, m.keyConstants, env, entries[i].0, EntryTexts(m, env, entries).value[i].0) &&
        SlotRoundTrips(m.valuePersistable, m.valueType, m.valueConstants, env, entries[i].1, EntryTexts(m, env, entries).value[i].1))
    requires DistinctKeys(entries)
    ensures StoreObject(cls, env, insert, row, p, VMap(entries)).Success?
    ensures FetchObject(cls, env, StoreObject(cls, env, insert, row, p, VMap(entries)).value, p) == Success((VMap(entries), false))
  {
    var m := cls.members[p];
    MapContainerDecodes(m, env, entries);
    var text := MapText(m, env, entries).value;
    assert ContainerText(m, env, VMap(entries)) == Success(Some(text));
    StoredContainer(cls, env, insert, row, p, VMap(entries), text);
  }

  lemma MapBodyDecodes(m: Member, env: Env, body: string, parts: seq<string>, entries: seq<(Value, Value)>)
    requires m.container.MapOf?
    requires Components(body) == if |parts| == 0 then None else Some(parts)
    requires DecodeEntries(m, env, [], false, parts) == Success((entries, false))
    ensures DecodeContainer(m, env, body) == Success((VMap(entries), false))
  {
  }

  lemma MapContainerDecodes(m: Member, env: Env, entries: seq<(Value, Value)>)
    requires m.container.MapOf? && EntryTexts(m, env, entries).Success?
    requires forall i :: 0 <= i < |entries| ==>
        SlotRoundTrips(m.keyPersistable, m.keyType, m.keyConstants, env, entries[i].0, EntryTexts(m, env, entries).value[i].0) &&
        SlotRoundTrips(m.valuePersistable, m.valueType, m.valueConstants, env, entries[i].1, EntryTexts(m, env, entries).value[i].1)
    requires DistinctKeys(entries)
    ensures MapText(m, env, entries).Success?
    ensures DecodeContainer(m, env, Unbracket(MapText(m, env, entries).value)) == Success((VMap(entries), false))
  {
    var texts := EntryTexts(m, env, entries).value;
    var parts := EntryParts(texts);
    EntryPartsDecode(m, env, texts, entries);
    UnbracketBracket(Join(parts));
    assert MapText(m, env, entries) == Success(Bracket(Join(parts)));
  }

  /** The joined parts of entry texts that read back decode to the entries themselves. */
  lemma EntryPartsDecode(m: Member, env: Env, texts: seq<(string, string)>, entries: seq<(Value, Value)>)
    requires m.container.MapOf? && |texts| == |entries|
    requires forall i :: 0 <= i < |entries| ==>
        SlotRoundTrips(m.keyPersistable, m.keyType, m.keyConstants, env, entries[i].0, texts[i].0) &&
        SlotRoundTrips(m.valuePersistable, m.valueType, m.valueConstants, env, entries[i].1, texts[i].1)
    requires DistinctKeys(entries)
    ensures DecodeContainer(m, env, Join(EntryParts(texts))) == Success((VMap(entries), false))
  {
    assert DecodeEntries(m, env, [], false, EntryParts(texts)) == Success((entries, false)) by {
      assert [] + entries == entries;
      DecodeEntriesOfParts(m, env, [], entries, texts);
    }
    NoCommas(m, env, texts, entries);
    PartsDecode(m, env, texts, entries);
  }

  lemma NoCommas(m: Member, env: Env, texts: seq<(string, string)>, entries: seq<(Value, Value)>)
    requires |texts| == |entries|
    requires forall i :: 0 <= i < |entries| ==>
        SlotRoundTrips(m.keyPersistable, m.keyType, m.keyConstants, env, entries[i].0, texts[i].0) &&
        SlotRoundTrips(m.valuePersistable, m.valueType, m.valueConstants, env, entries[i].1, texts[i].1)
    ensures forall i :: 0 <= i < |texts| ==> ',' !in texts[i].0 && ',' !in texts[i].1
  {
  }

  lemma PartsDecode(m: Member, env: Env, texts: seq<(string, string)>, entries: seq<(Value, Value)>)
    requires m.container.MapOf?
    requires forall i :: 0 <= i < |texts| ==> ',' !in texts[i].0 && ',' !in texts[i].1
    requires DecodeEntries(m, env, [], false, EntryParts(texts)) == Success((entries, false))
    ensures DecodeContainer(m, env, Join(EntryParts(texts))) == Success((VMap(entries), false))
  {
    var parts := EntryParts(texts);
    PartsComponents(texts);
    assert |parts| == 0 <==> |texts| == 0;
    MapBodyDecodes(m, env, Join(parts), parts, entries);
  }

  lemma PartsComponents(texts: seq<(string, string)>)
    requires forall i :: 0 <= i < |texts| ==> ',' !in texts[i].0 && ',' !in texts[i].1
    ensures Components(Join(EntryParts(texts))) == if |texts| == 0 then None else Some(EntryParts(texts))
  {
    BracketedTokens(texts);
    ComponentsOfJoin(EntryParts(texts));
  }

  // ---- primitive round trips -------------------------------------------------------------

  /** A stored primitive reads back: a number its class holds, a boolean, a `char` code unit, a string or `null`. */
  lemma PrimitiveRoundTrips(m: Member, insert: bool, row: Row, t: JType, n: int, b: bool, c: int, s: Option<string>)
    requires |m.columns| > 0 && Storable(m, insert)
    requires InRange(t, n) && 0 <= c < 0x1_0000
    ensures FetchNumber(StoreCell(m, insert, row, Num(n)), m.Column0(), t) == Success(n)
    ensures FetchBoolean(StoreCell(m, insert, row, Bool(b)), m.Column0()) == Success(b)
    ensures FetchChar(StoreCell(m, insert, row, Num(c)), m.Column0()) == Success(c)
    ensures FetchString(StoreString(m, insert, row, s), m.Column0()) == Success(s)
  {
    NarrowInRange(t, n);
  }
}
