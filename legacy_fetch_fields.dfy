/**
 * The older tree's `FetchFieldManager`.  It finds a field's cell through the
 * column resolver of `LegacyExcelUtils` (the store side writes at the
 * `Table` column), reads a `Character` from a text cell, builds a
 * `BigInteger` from the text of a double, picks an enum constant by its
 * ordinal, chooses between the built-in `Long` and `String` converters by
 * the member's JDBC type, and fails on any reference that resolves to no
 * object instead of dropping it.
 *
 * Two of its lines do not do what the surrounding code evidently means
 * (the `BigInteger` parse and the identity a map key or value is resolved
 * from); the functions that hold them take `asWritten` to select the code
 * as written or as corrected, and `FetchObject` uses the correction.
 */
module LegacyFetchFields {
  import opened Outcomes
  import opened Values
  import opened JavaNum
  import opened JavaText
  import opened Cells
  import opened Mapping
  import opened LegacyMapping
  import opened RefText
  import LegacyExcelUtils
  import StoreFields
  import LegacyStoreFields
  import FetchFields

  // ---- primitive fields ------------------------------------------------------------

  /** `fetchBooleanField`: `false` for an absent cell, as in the current tree. */
  function FetchBoolean(row: Row, col: int): (r: Result<bool>)
    ensures col >= 0 ==> r == FetchFields.FetchBoolean(row, col)
    ensures GetCell(row, col).None? ==> r == Success(false)
  {
    match GetCell(row, col)
    case None => Success(false)
    case Some(c) =>
      (match BoolOf(c)
       case Some(b) => Success(b)
       case None => Failure(WrongCellKind))
  }

  /** `fetchByteField` … `fetchDoubleField`: `0` for an absent cell, else the number cast to the field's class. */
  function FetchNumber(row: Row, col: int, t: JType): (r: Result<int>)
    ensures col >= 0 ==> r == FetchFields.FetchNumber(row, col, t)
    ensures GetCell(row, col).None? ==> r == Success(0)
  {
    match GetCell(row, col)
    case None => Success(0)
    case Some(c) =>
      (match NumberOf(c)
       case Some(n) => Success(FetchFields.Narrow(t, n))
       case None => Failure(WrongCellKind))
  }

  /** `fetchStringField`: `null` for an absent cell, else the cell's text. */
  function FetchString(row: Row, col: int): (r: Result<Option<string>>)
    ensures col >= 0 ==> r == FetchFields.FetchString(row, col)
    ensures GetCell(row, col).None? ==> r == Success(None)
  {
    match GetCell(row, col)
    case None => Success(None)
    case Some(c) =>
      (match StringOf(c)
       case Some(s) => Success(Some(s))
       case None => Failure(WrongCellKind))
  }

  /**
   * `fetchCharField` as written: the first character of the cell's text.
   * The store side writes a `char` as a number, and a numeric cell has no
   * text to read.
   */
  function FetchCharAsWritten(row: Row, col: int): (r: Result<int>)
    ensures GetCell(row, col).None? ==> r == Success(0)
    ensures GetCell(row, col).Some? && GetCell(row, col).value.Num? ==> r == Failure(WrongCellKind)
  {
    match GetCell(row, col)
    case None => Success(0)
    case Some(c) =>
      (match StringOf(c)
       case None => Failure(WrongCellKind)
       case Some(s) => if |s| == 0 then Failure(IndexOutOfBounds) else Success(s[0] as int))
  }

  /** `fetchCharField` corrected as the current tree has it: a numeric cell holds the code unit. */
  function FetchChar(row: Row, col: int): (r: Result<int>)
    ensures GetCell(row, col).None? ==> r == Success(0)
    ensures GetCell(row, col).Some? && GetCell(row, col).value.Num? ==> r == Success(UInt16(GetCell(row, col).value.n))
  {
    if col < 0 then Success(0) else FetchFields.FetchChar(row, col)
  }

  /** The field resolver and the `Table` agree on field `p`'s column, so a fetch reads what a store wrote. */
  predicate ColumnsAgree(cls: LegacyClass, p: nat)
    requires cls.Valid() && p < |cls.members|
  {
    LegacyExcelUtils.FieldColumn(cls, p) == cls.members[p].member.Column0()
  }

  /**
   * A `char` the older store side writes cannot be read back by its fetch
   * side as written; the corrected read gives it back.
   */
  lemma StoredCharRefused(cls: LegacyClass, insert: bool, row: Row, p: nat, c: int)
    requires cls.Valid() && p < |cls.members| && ColumnsAgree(cls, p)
    requires StoreFields.Storable(cls.members[p].member, insert) && 0 <= c < 0x1_0000
    ensures var stored := StoreFields.StoreCell(cls.members[p].member, insert, row, Num(c));
      FetchCharAsWritten(stored, LegacyExcelUtils.FieldColumn(cls, p)) == Failure(WrongCellKind) &&
      FetchChar(stored, LegacyExcelUtils.FieldColumn(cls, p)) == Success(c)
  {
  }

  // ---- BigInteger -----------------------------------------------------------------

  /**
   * `new BigInteger(String)`: an optional sign and at least one decimal
   * digit; anything else is a `NumberFormatException`, here `None`.
   */
  function ParseBigInteger(s: string): (r: Option<int>)
    ensures |s| == 0 ==> r.None?
  {
    if |s| == 0 then None
    else
      var body := if s[0] == '-' || s[0] == '+' then s[1..] else s;
      if |body| == 0 || !AllDigits(body) then None
      else Some(if s[0] == '-' then -(DigitsValue(body) as int) else DigitsValue(body))
  }

  /** `"" + (long) val`, as the current tree builds it, parses back to the `long`. */
  lemma ParseBigIntegerDecimal(n: int)
    ensures ParseBigInteger(DecimalText(n)) == Some(n)
  {
    if n < 0 {
      DigitsOfNatText(-n);
      assert DecimalText(n)[1..] == NatText(-n);
    } else {
      DigitsOfNatText(n);
      assert IsDigit(NatText(n)[0]);
    }
  }

  /** No text with a decimal point is an integer. */
  lemma PointRefused(s: string)
    requires '.' in s
    ensures ParseBigInteger(s).None?
  {
    var i :| 0 <= i < |s| && s[i] == '.';
    var body := if s[0] == '-' || s[0] == '+' then s[1..] else s;
    if s[0] == '-' || s[0] == '+' {
      assert body[i - 1] == '.';
    } else {
      assert body[i] == '.';
    }
  }

  /** Trailing `0` digits removed. */
  function DropTrailingZeros(ds: string): (r: string)
    ensures |r| <= |ds| && r == ds[..|r|]
  {
    if |ds| > 0 && ds[|ds| - 1] == '0' then DropTrailingZeros(ds[..|ds| - 1]) else ds
  }

  /**
   * `"" + val` for a `double` holding the integer `n` (`Double.toString`):
   * the digits and `.0` below ten million in magnitude, otherwise the first
   * digit, a point, the other digits without trailing zeros (at least one
   * digit) and the exponent after `E`.  Either way the text has a point.
   */
  function DoubleText(n: int): (s: string)
    ensures '.' in s
  {
    var digits := NatText(if n < 0 then -n else n);
    var sign := if n < 0 then "-" else "";
    if |digits| <= 7 then
      var s := sign + digits + ".0";
      assert s[|sign| + |digits|] == '.';
      s
    else
      var rest := DropTrailingZeros(digits[1..]);
      var s := sign + [digits[0]] + "." + (if |rest| == 0 then "0" else rest) + "E" + NatText(|digits| - 1);
      assert s[|sign| + 1] == '.';
      s
  }

  /** The class of a `BigInteger` member read from the number `n`: as written, and as the current tree corrects it. */
  function BigIntegerRead(n: int, asWritten: bool): (r: Result<Value>)
  {
    var text := if asWritten then DoubleText(n) else DecimalText(Int64(n));
    match ParseBigInteger(text)
    case Some(k) => Success(VNum(k))
    case None => Failure(BadInteger(text))
  }

  // ---- the built-in converters ---------------------------------------------------------

  /**
   * `String.equalsIgnoreCase` against a lower-case ASCII word: each
   * character equal, equal once upper-cased, or equal once lower-cased.
   * Besides the ASCII capitals, the dotless `ı` upper-cases and the dotted
   * `İ` lower-cases to the letters of `i`.
   */
  predicate SameLetter(c: char, lower: char)
  {
    c == lower || c as int == lower as int - 32 || (lower == 'i' && (c == '\U{0130}' || c == '\U{0131}'))
  }

  predicate EqualsIgnoreCase(s: string, word: string)
  {
    |s| == |word| && forall i :: 0 <= i < |s| ==> SameLetter(s[i], word[i])
  }

  /** The member has exactly one column metadata, whose JDBC type is `int` or `integer` in any case. */
  predicate UseLong(lm: LegacyMember)
  {
    |lm.columnMDs| == 1 && lm.columnMDs[0].jdbcType.Some? &&
    (EqualsIgnoreCase(lm.columnMDs[0].jdbcType.value, "int") || EqualsIgnoreCase(lm.columnMDs[0].jdbcType.value, "integer"))
  }

  lemma UseLongExamples(md: ColumnMD, lm: LegacyMember)
    requires md.jdbcType == Some("INTEGER") && lm.columnMDs == [md]
    ensures UseLong(lm)
    ensures UseLong(lm.(columnMDs := [md.(jdbcType := Some("\U{0131}nt"))]))
    ensures !UseLong(lm.(columnMDs := [md, md]))
    ensures !UseLong(lm.(columnMDs := [md.(jdbcType := Some("BIGINT"))]))
  {
    assert EqualsIgnoreCase("INTEGER", "integer");
    assert EqualsIgnoreCase("\U{0131}nt", "int");
    assert !EqualsIgnoreCase("BIGINT", "integer") && !EqualsIgnoreCase("BIGINT", "int");
  }

  /**
   * The end of `fetchObjectFieldFromCell` for a class no branch returned
   * for: with an `int` JDBC type the `Long` converter on the number; else the
   * `String` converter on a non-empty text, or the `Long` converter when
   * there is no `String` one; `null` when no converter applies.
   */
  function BuiltInRead(lm: LegacyMember, env: Env, c: Cell): (r: Result<Value>)
    ensures env.longConverter(lm.member.jtype).None? && (UseLong(lm) || env.stringConverter(lm.member.jtype).None?) ==> r == Success(VNull)
    ensures !UseLong(lm) && env.stringConverter(lm.member.jtype).Some? && c.Num? ==> r == Failure(WrongCellKind)
    ensures UseLong(lm) && env.longConverter(lm.member.jtype).Some? && c.Num? ==>
      r == Success(env.longConverter(lm.member.jtype).value.toMember(VNum(Int64(c.n))))
    ensures c.Blank? && env.stringConverter(lm.member.jtype).Some? && !UseLong(lm) ==> r == Success(VNull)
  {
    var t := lm.member.jtype;
    var useLong := UseLong(lm);
    if useLong && env.longConverter(t).Some? then
      var n :- FetchFields.NumberRead(c);
      Success(env.longConverter(t).value.toMember(VNum(Int64(n))))
    else if !useLong && env.stringConverter(t).Some? then
      var s :- FetchFields.StringRead(c);
      if |s| > 0 then Success(env.stringConverter(t).value.toMember(VStr(s))) else Success(VNull)
    else if !useLong && env.longConverter(t).Some? then
      var n :- FetchFields.NumberRead(c);
      Success(env.longConverter(t).value.toMember(VNum(Int64(n))))
    else Success(VNull)
  }

  // ---- fetchObjectFieldFromCell --------------------------------------------------------

  /**
   * The value a user type converter is given, read by its datastore class;
   * `None` leaves the field `null`.  Unlike the current tree a whitespace
   * text is passed on.
   */
  function ConverterInput(c: Cell, dt: JType): (r: Result<Option<Value>>)
    ensures !dt.TString? ==> r == FetchFields.DatastoreRead(c, dt)
    ensures dt.TString? ==> (r.Success? <==> StringOf(c).Some?)
    ensures dt.TString? && r.Success? ==> r.value == Some(VStr(StringOf(c).value))
  {
    if dt.TString? then
      var s :- FetchFields.StringRead(c);
      Success(Some(VStr(s)))
    else if IsNumber(dt) then
      var n :- FetchFields.NumberRead(c);
      Success(Some(VNum(n)))
    else if dt.TBoolean? then
      match BoolOf(c)
      case None => Failure(WrongCellKind)
      case Some(b) => Success(Some(VBool(b)))
    else if dt.TDate? then
      match DateOf(c)
      case None => Failure(WrongCellKind)
      case Some(None) => Success(Some(VNull))
      case Some(Some(ms)) => Success(Some(VDate(ms)))
    else Success(None)
  }

  /** Where the trees differ for a converter: a blank or whitespace text reaches the older tree's converter. */
  lemma WhitespaceReachesConverter(s: string)
    requires IsWhitespace(Some(s))
    ensures ConverterInput(Str(s), TString) == Success(Some(VStr(s)))
    ensures FetchFields.DatastoreRead(Str(s), TString) == Success(None)
  {
  }

  /**
   * The class dispatch of `fetchObjectFieldFromCell` on a present cell:
   * dates, calendars, booleans and characters, the numeric classes, enums
   * by ordinal or by name, byte arrays, and the built-in converters for any
   * other class (`String` and `Number` among them).
   */
  function ClassValue(lm: LegacyMember, env: Env, c: Cell, asWritten: bool): (r: Result<Value>)
    ensures var t := lm.member.jtype;
      (t.TDate? || t.TCalendar? || t.TBoolean? || t.TChar? || t.TBytes? || (IsNumber(t) && !t.TNumber? && !t.TBigInteger?)) ==>
      r == FetchFields.ValueOfType(lm.member, env, c, t)
    ensures lm.member.jtype.TEnum? && lm.member.numericColumn && c.Num? ==>
      (r.Success? <==> 0 <= Int32(c.n) < |lm.member.enumConstants|)
    ensures lm.member.jtype.TEnum? && !lm.member.numericColumn && c == Str("") ==> r == Success(VNull)
    ensures (lm.member.jtype.TString? || lm.member.jtype.TOther?) ==> r == BuiltInRead(lm, env, c)
  {
    var m := lm.member;
    var t := m.jtype;
    if t.TDate? then
      match DateOf(c)
      case None => Failure(WrongCellKind)
      case Some(None) => Success(VNull)
      case Some(Some(ms)) => Success(VDate(ms))
    else if t.TCalendar? then
      match DateOf(c)
      case None => Failure(WrongCellKind)
      case Some(None) => Success(VNull)
      case Some(Some(ms)) => Success(VCalendar(ms))
    else if t.TBoolean? then
      match BoolOf(c)
      case None => Failure(WrongCellKind)
      case Some(b) => Success(VBool(b))
    else if t.TChar? then
      var s :- FetchFields.StringRead(c);
      if |s| == 0 then Failure(IndexOutOfBounds) else Success(VChar(s[0]))
    else if IsNumber(t) then
      var n :- FetchFields.NumberRead(c);
      if t.TBigInteger? then BigIntegerRead(n, asWritten)
      else if t.TNumber? then BuiltInRead(lm, env, c)
      else Success(VNum(FetchFields.Narrow(t, n)))
    else if t.TEnum? then
      if m.numericColumn then
        var n :- FetchFields.NumberRead(c);
        var k := Int32(n);
        if 0 <= k < |m.enumConstants| then Success(VEnum(k, m.enumConstants[k])) else Failure(IndexOutOfBounds)
      else
        var s :- FetchFields.StringRead(c);
        if |s| == 0 then Success(VNull)
        else
          (match FetchFields.EnumConstant(m.enumConstants, s)
           case Some(e) => Success(e)
           case None => Failure(NoEnumConstant(s)))
    else if t.TBytes? then
      var s :- FetchFields.StringRead(c);
      Success(VBytes(env.decode64(s)))
    else BuiltInRead(lm, env, c)
  }

  /**
   * A `BigInteger` member is never read back as written: the text of a
   * double always has a point, which `new BigInteger` refuses.  Parsing the
   * text of the `long` instead gives the number.
   */
  lemma BigIntegerRefused(lm: LegacyMember, env: Env, n: int)
    requires lm.member.jtype.TBigInteger?
    ensures ClassValue(lm, env, Num(n), true) == Failure(BadInteger(DoubleText(n)))
    ensures ClassValue(lm, env, Num(n), false) == Success(VNum(Int64(n)))
  {
    BigIntegerReads(n);
    BigIntegerDispatch(lm, env, n, true);
    BigIntegerDispatch(lm, env, n, false);
  }

  lemma BigIntegerReads(n: int)
    ensures BigIntegerRead(n, true) == Failure(BadInteger(DoubleText(n)))
    ensures BigIntegerRead(n, false) == Success(VNum(Int64(n)))
  {
    PointRefused(DoubleText(n));
    ParseBigIntegerDecimal(Int64(n));
  }

  lemma BigIntegerDispatch(lm: LegacyMember, env: Env, n: int, asWritten: bool)
    requires lm.member.jtype.TBigInteger?
    ensures ClassValue(lm, env, Num(n), asWritten) == BigIntegerRead(n, asWritten)
  {
    var t := lm.member.jtype;
    assert !t.TDate? && !t.TCalendar? && !t.TBoolean? && !t.TChar? && IsNumber(t);
    assert FetchFields.NumberRead(Num(n)) == Success(n);
  }

  // ---- references ---------------------------------------------------------------------

  /**
   * The elements of a collection or an array: every identity resolved, in
   * order; the first that resolves to no object is the framework's
   * not-found exception.
   */
  function ResolveEach(env: Env, comps: seq<string>): (r: Result<seq<Value>>)
    ensures r.Success? <==> forall i :: 0 <= i < |comps| ==> env.resolve(comps[i]).Some?
    ensures r.Success? ==> |r.value| == |comps| && forall i :: 0 <= i < |comps| ==> r.value[i] == VRef(env.resolve(comps[i]).value)
    ensures r.Failure? ==> r.fault == ObjectNotFound
  {
    if |comps| == 0 then Success([])
    else
      var init := comps[..|comps| - 1];
      assert forall i :: 0 <= i < |init| ==> init[i] == comps[i];
      var elems :- ResolveEach(env, init);
      match env.resolve(comps[|comps| - 1])
      case Some(o) => Success(elems + [VRef(o)])
      case None => Failure(ObjectNotFound)
  }

  /**
   * The older tree fails exactly where the current one drops an element and
   * marks the field dirty; otherwise both read the same elements.
   */
  lemma ResolveEachAgrees(env: Env, comps: seq<string>)
    ensures ResolveEach(env, comps).Success? <==> !FetchFields.ResolveAll(env, comps).1
    ensures ResolveEach(env, comps).Success? ==> ResolveEach(env, comps).value == FetchFields.Refs(FetchFields.ResolveAll(env, comps).0)
  {
    var (os, changed) := FetchFields.ResolveAll(env, comps);
    if ResolveEach(env, comps).Success? {
      assert !changed;
      assert forall i :: 0 <= i < |comps| ==> ResolveEach(env, comps).value[i] == FetchFields.Refs(os)[i];
    }
  }

  /** The collection loop: each element resolved and added, the first not found ending the fetch. */
  method DecodeCollection(env: Env, comps: seq<string>) returns (r: Result<seq<Value>>)
    ensures r == ResolveEach(env, comps)
  {
    var coll: seq<Value> := [];
    for i := 0 to |comps|
      invariant ResolveEach(env, comps[..i]) == Success(coll)
    {
      assert comps[..i + 1][..i] == comps[..i];
      var element := env.resolve(comps[i]);
      if element.None? {
        ResolveStopsAt(env, comps, i + 1);
        return Failure(ObjectNotFound);
      }
      coll := coll + [VRef(element.value)];
    }
    assert comps[..|comps|] == comps;
    return Success(coll);
  }

  /** A prefix that fails makes the whole sequence fail. */
  lemma {:induction false} ResolveStopsAt(env: Env, comps: seq<string>, k: nat)
    requires k <= |comps| && ResolveEach(env, comps[..k]).Failure?
    ensures ResolveEach(env, comps) == Failure(ObjectNotFound)
  {
  }

  /** One more identity that resolves extends the prefix's references by one. */
  lemma ResolveEachSnoc(env: Env, ids: seq<string>, i: nat, before: seq<Value>, o: ObjRef)
    requires i < |ids| && ResolveEach(env, ids[..i]) == Success(before) && env.resolve(ids[i]) == Some(o)
    ensures ResolveEach(env, ids[..i + 1]) == Success(before + [VRef(o)])
  {
    assert ids[..i + 1][..i] == ids[..i];
  }

  /** An identity that resolves to nothing fails the whole sequence. */
  lemma ResolveEachFails(env: Env, ids: seq<string>, i: nat)
    requires i < |ids| && env.resolve(ids[i]).None?
    ensures ResolveEach(env, ids) == Failure(ObjectNotFound)
  {
  }

  /**
   * The array loop: an array of one slot per identity, each slot set to the
   * object its identity resolves to; no identities give an empty array.
   */
  method DecodeArray(env: Env, comps: Option<seq<string>>) returns (r: Result<seq<Value>>)
    ensures r == ResolveEach(env, if comps.Some? then comps.value else [])
  {
    if comps.None? {
      return Success([]);
    }
    var ids := comps.value;
    var arr := new Value[|ids|](_ => VNull);
    for i := 0 to |ids|
      invariant ResolveEach(env, ids[..i]) == Success(arr[..i])
    {
      var element := env.resolve(ids[i]);
      if element.None? {
        ResolveEachFails(env, ids, i);
        return Failure(ObjectNotFound);
      }
      ghost var before := arr[..i];
      arr[i] := VRef(element.value);
      assert arr[..i + 1] == before + [VRef(element.value)];
      ResolveEachSnoc(env, ids, i, before, element.value);
    }
    assert ids[..|ids|] == ids;
    assert arr[..|ids|] == arr[..];
    return Success(arr[..]);
  }

  // ---- maps ----------------------------------------------------------------------------

  /**
   * A key or value text of a map: resolved when its class is persistable
   * (not found being the exception), else an enum constant, a `String`, or
   * refused.  Where it succeeds it reads what the current tree reads.
   */
  function MapSlot(persistable: bool, t: JType, constants: seq<string>, env: Env, text: string): (r: Result<Value>)
    ensures persistable ==> (r.Success? <==> env.resolve(text).Some?)
    ensures persistable && r.Failure? ==> r.fault == ObjectNotFound
    ensures r.Success? <==> FetchFields.DecodeSlot(persistable, t, constants, env, text).Success? &&
                            FetchFields.DecodeSlot(persistable, t, constants, env, text).value.Found?
    ensures r.Success? ==> FetchFields.DecodeSlot(persistable, t, constants, env, text) == Success(FetchFields.Found(r.value))
  {
    if persistable then
      match env.resolve(text)
      case Some(o) => Success(VRef(o))
      case None => Failure(ObjectNotFound)
    else if t.TEnum? then
      match FetchFields.EnumConstant(constants, text)
      case Some(e) => Success(e)
      case None => Failure(NoEnumConstant(text))
    else if t.TString? then Success(VStr(text))
    else Failure(Unsupported)
  }

  /**
   * The map loop from the current entries on: components taken in pairs,
   * both stripped of their first and last character, key and value decoded
   * and put.  As written, a persistable key or value is resolved from the
   * unstripped value component; corrected, from its own stripped text.
   */
  function DecodePairs(m: Member, env: Env, acc: seq<(Value, Value)>, comps: seq<string>, asWritten: bool): (r: Result<seq<(Value, Value)>>)
    ensures r.Success? ==> |r.value| <= |acc| + |comps| / 2
    ensures |comps| % 2 == 1 ==> r.Failure?
    decreases |comps|
  {
    if |comps| == 0 then Success(acc)
    else if |comps| == 1 then Failure(IndexOutOfBounds)
    else
      var (key, val) :- DecodePair(m, env, comps[0], comps[1], asWritten);
      var next := FetchFields.PutEntry(acc, key, val);
      assert |next| <= |acc| + 1 && |comps[2..]| / 2 + 1 == |comps| / 2;
      DecodePairs(m, env, next, comps[2..], asWritten)
  }

  /**
   * One key component and one value component stripped and read; as
   * written, a persistable key or value is resolved from the raw value
   * component.
   */
  function DecodePair(m: Member, env: Env, keyCmpt: string, valCmpt: string, asWritten: bool): (r: Result<(Value, Value)>)
  {
    var keyStr :- FetchFields.Strip(keyCmpt);
    var valStr :- FetchFields.Strip(valCmpt);
    var key :- MapSlot(m.keyPersistable, m.keyType, m.keyConstants, env,
                       if m.keyPersistable && asWritten then valCmpt else keyStr);
    var val :- MapSlot(m.valuePersistable, m.valueType, m.valueConstants, env,
                       if m.valuePersistable && asWritten then valCmpt else valStr);
    Success((key, val))
  }

  /** The body of one pass of the map loop, up to the put. */
  method DecodeOnePair(m: Member, env: Env, keyCmpt: string, valCmpt: string, asWritten: bool) returns (r: Result<(Value, Value)>)
    ensures r == DecodePair(m, env, keyCmpt, valCmpt, asWritten)
  {
    if |keyCmpt| < 2 || |valCmpt| < 2 {
      return Failure(IndexOutOfBounds);
    }
    var keyStr := keyCmpt[1..|keyCmpt| - 1];
    var valStr := valCmpt[1..|valCmpt| - 1];
    var key := MapSlot(m.keyPersistable, m.keyType, m.keyConstants, env,
                       if m.keyPersistable && asWritten then valCmpt else keyStr);
    if key.Failure? {
      return Failure(key.fault);
    }
    var val := MapSlot(m.valuePersistable, m.valueType, m.valueConstants, env,
                       if m.valuePersistable && asWritten then valCmpt else valStr);
    if val.Failure? {
      return Failure(val.fault);
    }
    return Success((key.value, val.value));
  }

  /** The map loop, with the `i++` in its body that steps to the value component. */
  method DecodeMap(m: Member, env: Env, comps: seq<string>, asWritten: bool) returns (r: Result<seq<(Value, Value)>>)
    ensures r == DecodePairs(m, env, [], comps, asWritten)
  {
    var map_: seq<(Value, Value)> := [];
    var i := 0;
    while i < |comps|
      invariant 0 <= i <= |comps|
      invariant DecodePairs(m, env, [], comps, asWritten) == DecodePairs(m, env, map_, comps[i..], asWritten)
      decreases |comps| - i
    {
      var keyCmpt := comps[i];
      i := i + 1;
      if i >= |comps| {
        return Failure(IndexOutOfBounds);
      }
      var valCmpt := comps[i];
      assert comps[i - 1..][2..] == comps[i + 1..];
      var pair := DecodeOnePair(m, env, keyCmpt, valCmpt, asWritten);
      if pair.Failure? {
        return Failure(pair.fault);
      }
      map_ := FetchFields.PutEntry(map_, pair.value.0, pair.value.1);
      i := i + 1;
    }
    return Success(map_);
  }

  /**
   * Where the current tree's map loop reads every entry without dropping
   * any, the corrected older loop reads the same entries.
   */
  lemma {:induction false} DecodePairsAgree(m: Member, env: Env, acc: seq<(Value, Value)>, comps: seq<string>, entries: seq<(Value, Value)>)
    requires FetchFields.DecodeEntries(m, env, acc, false, comps) == Success((entries, false))
    ensures DecodePairs(m, env, acc, comps, false) == Success(entries)
    decreases |comps|
  {
    if |comps| >= 2 {
      var keyStr := FetchFields.Strip(comps[0]).value;
      var valStr := FetchFields.Strip(comps[1]).value;
      var key := FetchFields.DecodeSlot(m.keyPersistable, m.keyType, m.keyConstants, env, keyStr).value;
      var val := FetchFields.DecodeSlot(m.valuePersistable, m.valueType, m.valueConstants, env, valStr).value;
      assert key.Found? && val.Found?;
      DecodePairsAgree(m, env, FetchFields.PutEntry(acc, key.v, val.v), comps[2..], entries);
    }
  }

  // ---- fetchObjectField ------------------------------------------------------------------

  /**
   * A bracketed multi-valued text without its brackets, cut into components
   * and rebuilt by the container kind; anything but a collection, a map or
   * an array is refused.  As written, the array loop asks the member's
   * collection metadata for the element class, which an array member does
   * not have, so an array with a component dereferences `null`.
   */
  function ContainerValue(m: Member, env: Env, body: string, asWritten: bool): (r: Result<Value>)
    ensures m.container.NoContainer? ==> r == Failure(Unsupported)
    ensures asWritten && m.container.ArrayOf? && Components(body).Some? && |Components(body).value| > 0 ==>
              r == Failure(NoCollectionMetaData)
    ensures m.container.CollectionOf? && Components(body).None? ==> r == Success(VColl([]))
  {
    var comps := Components(body);
    var list := if comps.Some? then comps.value else [];
    match m.container
    case CollectionOf =>
      var elems :- ResolveEach(env, list);
      Success(VColl(elems))
    case ArrayOf =>
      if asWritten && |list| > 0 then Failure(NoCollectionMetaData)
      else
        var elems :- ResolveEach(env, list);
        Success(VArr(elems))
    case MapOf =>
      var entries :- DecodePairs(m, env, [], list, asWritten);
      Success(VMap(entries))
    case NoContainer => Failure(Unsupported)
  }

  /**
   * `fetchObjectFieldFromCell`: `null` for an absent cell whatever the
   * member; a user converter given the cell read by its datastore class;
   * the class dispatch; a single reference resolved (not found being the
   * exception) or `null` when not bracketed; a multi-valued text decoded,
   * and refused when not bracketed.
   */
  function FromCell(lm: LegacyMember, env: Env, cell: Option<Cell>, asWritten: bool): (r: Result<Value>)
    ensures cell.None? ==> r == Success(VNull)
    ensures cell.Some? && lm.member.relation.SingleValued? && cell.value.Str? && IsBracketed(cell.value.s) ==>
      r == (if env.resolve(Unbracket(cell.value.s)).Some? then Success(VRef(env.resolve(Unbracket(cell.value.s)).value)) else Failure(ObjectNotFound))
    ensures cell.Some? && lm.member.relation.MultiValued? && cell.value.Str? && !IsBracketed(cell.value.s) ==> r == Failure(Unsupported)
  {
    match cell
    case None => Success(VNull)
    case Some(c) =>
      var m := lm.member;
      match m.relation
      case NoRelation =>
        if m.converter.Some? then
          (match m.converter.value
           case Single(dt, conv) =>
             var dv :- ConverterInput(c, dt);
             Success(if dv.Some? then conv.toMember(dv.value) else VNull)
           case Multi(_, _, _) => Success(VNull))
        else ClassValue(lm, env, c, asWritten)
      case SingleValued =>
        var s :- FetchFields.StringRead(c);
        if !IsBracketed(s) then Success(VNull)
        else
          (match env.resolve(Unbracket(s))
           case Some(o) => Success(VRef(o))
           case None => Failure(ObjectNotFound))
      case MultiValued =>
        var s :- FetchFields.StringRead(c);
        if !IsBracketed(s) then Failure(Unsupported)
        else ContainerValue(m, env, Unbracket(s), asWritten)
  }

  /**
   * `fetchObjectField`, with both lines corrected: the cell at the column
   * the resolver gives the field.  An embedded single-valued relation is
   * read by the embedded field manager, which is not part of this model.
   */
  function FetchObject(cls: LegacyClass, env: Env, row: Row, p: nat): (r: Result<Value>)
    requires p < |cls.members|
    requires var m := cls.members[p].member; !(m.relation.SingleValued? && m.embedded)
    ensures GetCell(row, LegacyExcelUtils.FieldColumn(cls, p)).None? ==> r == Success(VNull)
  {
    FromCell(cls.members[p], env, GetCell(row, LegacyExcelUtils.FieldColumn(cls, p)), false)
  }

  // ---- round trips ------------------------------------------------------------------------

  /**
   * A non-null value of a plain member without converter that the older
   * codec carries unchanged: a number its class holds, a value of the
   * matching kind, an enum constant at its ordinal and not named earlier
   * (with a name, when written as one), bytes the encoder and decoder give
   * back.
   */
  predicate LegacyRepresentable(m: Member, v: Value, env: Env)
  {
    var t := m.jtype;
    (IsNumber(t) && !t.TNumber? && v.VNum? && FetchFields.InRange(t, v.n)) ||
    (t.TChar? && v.VChar?) ||
    (t.TBoolean? && v.VBool?) ||
    (t.TDate? && v.VDate?) ||
    (t.TCalendar? && v.VCalendar?) ||
    (t.TEnum? && v.VEnum? && InInt(v.ordinal) && v.ordinal < |m.enumConstants| && m.enumConstants[v.ordinal] == v.name &&
      (forall j :: 0 <= j < v.ordinal ==> m.enumConstants[j] != v.name) && (m.numericColumn || |v.name| > 0)) ||
    (t.TBytes? && v.VBytes? && env.decode64(env.encode64(v.bytes)) == v.bytes)
  }

  /** The first constant of a name is found at its ordinal. */
  lemma {:induction false} EnumConstantFirst(constants: seq<string>, k: nat)
    requires k < |constants| && forall j :: 0 <= j < k ==> constants[j] != constants[k]
    ensures FetchFields.EnumConstant(constants, constants[k]) == Some(VEnum(k, constants[k]))
  {
    if k > 0 {
      var tail := constants[1..];
      assert forall j :: 0 <= j < k - 1 ==> tail[j] == constants[j + 1];
      EnumConstantFirst(tail, k - 1);
    }
  }

  /**
   * A plain member without converter reads back as what the older store side
   * wrote, `null` included (its cell is removed, and an absent cell reads as
   * `null` for every class).
   */
  lemma PlainFieldRoundTrip(cls: LegacyClass, env: Env, insert: bool, row: Row, p: nat, v: Value)
    requires cls.Valid() && p < |cls.members| && ColumnsAgree(cls, p)
    requires var m := cls.members[p].member;
      StoreFields.Storable(m, insert) && m.relation.NoRelation? && m.converter.None? && |m.columns| == 1 &&
      (v.VNull? || LegacyRepresentable(m, v, env))
    ensures LegacyStoreFields.StoreFieldValue(cls, env, insert, row, p, v).Success?
    ensures FetchObject(cls, env, LegacyStoreFields.StoreFieldValue(cls, env, insert, row, p, v).value, p) == Success(v)
  {
    if !v.VNull? {
      var c := PlainCell(cls.members[p], env, v);
      StoredPlain(cls, env, insert, row, p, v, c);
    }
  }

  /** A representable value is written as one cell that its class reads back as the value. */
  lemma PlainCell(lm: LegacyMember, env: Env, v: Value) returns (c: Cell)
    requires lm.member.relation.NoRelation? && lm.member.converter.None? && LegacyRepresentable(lm.member, v, env)
    ensures LegacyStoreFields.CellFor(lm.member, env, v) == Success(Some(c))
    ensures ClassValue(lm, env, c, false) == Success(v)
  {
    var m := lm.member;
    if m.jtype.TEnum? {
      EnumConstantFirst(m.enumConstants, v.ordinal);
    } else if IsNumber(m.jtype) {
      FetchFields.NarrowInRange(m.jtype, v.n);
      if m.jtype.TBigInteger? {
        ParseBigIntegerDecimal(Int64(v.n));
      }
    }
    c := LegacyStoreFields.CellFor(m, env, v).value.value;
  }

  /** A plain value written as cell `c` is read back through its class from that cell. */
  lemma StoredPlain(cls: LegacyClass, env: Env, insert: bool, row: Row, p: nat, v: Value, c: Cell)
    requires cls.Valid() && p < |cls.members| && ColumnsAgree(cls, p)
    requires var m := cls.members[p].member;
      StoreFields.Storable(m, insert) && m.relation.NoRelation? && m.converter.None? && |m.columns| == 1 &&
      !v.VNull? && LegacyStoreFields.CellFor(m, env, v) == Success(Some(c))
    ensures var after := row[cls.members[p].member.Column0() := c];
      LegacyStoreFields.StoreFieldValue(cls, env, insert, row, p, v) == Success(after) &&
      FetchObject(cls, env, after, p) == ClassValue(cls.members[p], env, c, false)
  {
  }

  /** The text of resolvable references, read with the older loop, gives them back. */
  lemma ElementsDecode(env: Env, elems: seq<Value>)
    requires FetchFields.Resolvable(env, elems)
    ensures StoreFields.ElementsText(elems).Success?
    ensures var text := StoreFields.ElementsText(elems).value;
      IsBracketed(text) &&
      ResolveEach(env, if Components(Unbracket(text)).Some? then Components(Unbracket(text)).value else []) == Success(elems)
  {
    FetchFields.ElementsTextDecodes(env, elems);
    var text := StoreFields.ElementsText(elems).value;
    var list := if Components(Unbracket(text)).Some? then Components(Unbracket(text)).value else [];
    ResolveEachAgrees(env, list);
  }

  /**
   * A collection or an array of references whose identities resolve back
   * reads back as the same elements in the same order; the older store side
   * makes no reachability check.
   */
  lemma ElementsRoundTrip(cls: LegacyClass, env: Env, insert: bool, row: Row, p: nat, elems: seq<Value>)
    requires cls.Valid() && p < |cls.members| && ColumnsAgree(cls, p)
    requires var m := cls.members[p].member;
      StoreFields.Storable(m, insert) && m.relation.MultiValued? && !m.embedded && |m.columns| == 1 &&
      (m.container.CollectionOf? || m.container.ArrayOf?)
    requires FetchFields.Resolvable(env, elems)
    ensures var v := if cls.members[p].member.container.ArrayOf? then VArr(elems) else VColl(elems);
      LegacyStoreFields.StoreFieldValue(cls, env, insert, row, p, v).Success? &&
      FetchObject(cls, env, LegacyStoreFields.StoreFieldValue(cls, env, insert, row, p, v).value, p) == Success(v)
  {
    var m := cls.members[p].member;
    var v := if m.container.ArrayOf? then VArr(elems) else VColl(elems);
    var text := ElementsTextDecodes(m, env, elems, v);
    StoredContainer(cls, env, insert, row, p, v, text);
  }

  /**
   * As written, no array holding an element reads back: its text has
   * components, so the array loop fails on the missing collection metadata,
   * where the corrected decoder gives the array back.
   */
  lemma StoredArrayRefusedAsWritten(m: Member, env: Env, elems: seq<Value>) returns (text: string)
    requires m.container.ArrayOf? && FetchFields.Resolvable(env, elems) && |elems| > 0
    ensures LegacyStoreFields.ContainerTextUnchecked(m, env, VArr(elems)) == Success(Some(text))
    ensures ContainerValue(m, env, Unbracket(text), true) == Failure(NoCollectionMetaData)
    ensures ContainerValue(m, env, Unbracket(text), false) == Success(VArr(elems))
  {
    text := ElementsTextDecodes(m, env, elems, VArr(elems));
    FetchFields.StoredElementsHaveComponents(env, elems);
  }

  /** A collection or array of resolvable references is written as a text that reads back as it. */
  lemma ElementsTextDecodes(m: Member, env: Env, elems: seq<Value>, v: Value) returns (text: string)
    requires (m.container.CollectionOf? && v == VColl(elems)) || (m.container.ArrayOf? && v == VArr(elems))
    requires FetchFields.Resolvable(env, elems)
    ensures LegacyStoreFields.ContainerTextUnchecked(m, env, v) == Success(Some(text)) && IsBracketed(text)
    ensures ContainerValue(m, env, Unbracket(text), false) == Success(v)
  {
    ElementsDecode(env, elems);
    text := StoreFields.ElementsText(elems).value;
  }

  /**
   * A map whose keys are distinct and whose keys and values read back from
   * their texts reads back as the same entries with the corrected loop.
   */
  lemma MapRoundTrip(cls: LegacyClass, env: Env, insert: bool, row: Row, p: nat, entries: seq<(Value, Value)>)
    requires cls.Valid() && p < |cls.members| && ColumnsAgree(cls, p)
    requires var m := cls.members[p].member;
      StoreFields.Storable(m, insert) && m.relation.MultiValued? && !m.embedded && |m.columns| == 1 && m.container.MapOf? &&
      StoreFields.EntryTexts(m, env, entries).Success? &&
      (forall i :: 0 <= i < |entries| ==>
        FetchFields.SlotRoundTrips(m.keyPersistable, m.keyType, m.keyConstants, env, entries[i].0, StoreFields.EntryTexts(m, env, entries).value[i].0) &&
        FetchFields.SlotRoundTrips(m.valuePersistable, m.valueType, m.valueConstants, env, entries[i].1, StoreFields.EntryTexts(m, env, entries).value[i].1))
    requires FetchFields.DistinctKeys(entries)
    ensures LegacyStoreFields.StoreFieldValue(cls, env, insert, row, p, VMap(entries)).Success?
    ensures FetchObject(cls, env, LegacyStoreFields.StoreFieldValue(cls, env, insert, row, p, VMap(entries)).value, p) == Success(VMap(entries))
  {
    var m := cls.members[p].member;
    var text := MapTextDecodes(m, env, entries);
    StoredContainer(cls, env, insert, row, p, VMap(entries), text);
  }

  /** The text of a map whose entries read back decodes, with the corrected loop, to the map. */
  lemma MapTextDecodes(m: Member, env: Env, entries: seq<(Value, Value)>) returns (text: string)
    requires m.container.MapOf? && StoreFields.EntryTexts(m, env, entries).Success?
    requires forall i :: 0 <= i < |entries| ==>
        FetchFields.SlotRoundTrips(m.keyPersistable, m.keyType, m.keyConstants, env, entries[i].0, StoreFields.EntryTexts(m, env, entries).value[i].0) &&
        FetchFields.SlotRoundTrips(m.valuePersistable, m.valueType, m.valueConstants, env, entries[i].1, StoreFields.EntryTexts(m, env, entries).value[i].1)
    requires FetchFields.DistinctKeys(entries)
    ensures LegacyStoreFields.ContainerTextUnchecked(m, env, VMap(entries)) == Success(Some(text)) && IsBracketed(text)
    ensures ContainerValue(m, env, Unbracket(text), false) == Success(VMap(entries))
  {
    var texts := StoreFields.EntryTexts(m, env, entries).value;
    var parts := EntryParts(texts);
    MapPartsDecode(m, env, texts, entries);
    UnbracketBracket(Join(parts));
    text := Bracket(Join(parts));
    UncheckedMapText(m, env, entries);
    MapBodyValue(m, env, Join(parts), parts, entries);
  }

  lemma UncheckedMapText(m: Member, env: Env, entries: seq<(Value, Value)>)
    requires m.container.MapOf? && StoreFields.EntryTexts(m, env, entries).Success?
    ensures LegacyStoreFields.ContainerTextUnchecked(m, env, VMap(entries)) ==
            Success(Some(Bracket(Join(EntryParts(StoreFields.EntryTexts(m, env, entries).value)))))
  {
  }

  lemma MapBodyValue(m: Member, env: Env, body: string, parts: seq<string>, entries: seq<(Value, Value)>)
    requires m.container.MapOf?
    requires Components(body) == (if |parts| == 0 then None else Some(parts))
    requires DecodePairs(m, env, [], parts, false) == Success(entries)
    ensures ContainerValue(m, env, body, false) == Success(VMap(entries))
  {
    assert |parts| == 0 ==> parts == [];
  }

  /** A multi-valued member written as `text` reads back as that text decoded. */
  lemma StoredContainer(cls: LegacyClass, env: Env, insert: bool, row: Row, p: nat, v: Value, text: string)
    requires cls.Valid() && p < |cls.members| && ColumnsAgree(cls, p)
    requires var m := cls.members[p].member;
      StoreFields.Storable(m, insert) && m.relation.MultiValued? && !m.embedded && |m.columns| == 1 && !v.VNull? &&
      LegacyStoreFields.ContainerTextUnchecked(m, env, v) == Success(Some(text)) && IsBracketed(text)
    ensures var after := row[cls.members[p].member.Column0() := Str(text)];
      LegacyStoreFields.StoreFieldValue(cls, env, insert, row, p, v) == Success(after) &&
      FetchObject(cls, env, after, p) == ContainerValue(cls.members[p].member, env, Unbracket(text), false)
  {
  }

  /** The joined parts of entry texts that read back decode, with the corrected loop, to the entries. */
  lemma MapPartsDecode(m: Member, env: Env, texts: seq<(string, string)>, entries: seq<(Value, Value)>)
    requires |texts| == |entries|
    requires forall i :: 0 <= i < |entries| ==>
        FetchFields.SlotRoundTrips(m.keyPersistable, m.keyType, m.keyConstants, env, entries[i].0, texts[i].0) &&
        FetchFields.SlotRoundTrips(m.valuePersistable, m.valueType, m.valueConstants, env, entries[i].1, texts[i].1)
    requires FetchFields.DistinctKeys(entries)
    ensures var parts := EntryParts(texts);
      Components(Join(parts)) == (if |texts| == 0 then None else Some(parts)) &&
      DecodePairs(m, env, [], parts, false) == Success(entries)
  {
    FetchFields.NoCommas(m, env, texts, entries);
    FetchFields.PartsComponents(texts);
    assert [] + entries == entries;
    FetchFields.DecodeEntriesOfParts(m, env, [], entries, texts);
    DecodePairsAgree(m, env, [], EntryParts(texts), entries);
  }

  /**
   * The map loop as written resolves a persistable key or value from the
   * value component with its brackets; no identity has those, so the first
   * entry of any such map is not found.
   */
  lemma MapKeyFromRawComponent(m: Member, env: Env, texts: seq<(string, string)>, entries: seq<(Value, Value)>)
    requires |texts| > 0 && |entries| > 0
    requires m.keyPersistable || m.valuePersistable
    requires FetchFields.SlotRoundTrips(m.keyPersistable, m.keyType, m.keyConstants, env, entries[0].0, texts[0].0)
    requires env.resolve(Bracket(texts[0].1)).None?
    ensures DecodePairs(m, env, [], EntryParts(texts), true) == Failure(ObjectNotFound)
  {
    FetchFields.EntryPartsTail(texts);
    UnbracketBracket(texts[0].0);
    UnbracketBracket(texts[0].1);
  }
}
