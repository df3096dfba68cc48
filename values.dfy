/**
 * The Java values that reach the spreadsheet layer, the classes that the
 * code dispatches on, and the framework services it calls.
 */
module Values {
  import opened Outcomes

  /**
   * The Java classes the code distinguishes.  A numeric class covers both the
   * primitive and the boxed form (`int.class` and `Integer.class`), as the
   * comparisons in the source do.  `TDate` is `java.util.Date` and its
   * `java.sql` subclasses.
   */
  datatype JType =
    | TString | TInt | TLong | TShort | TByte | TFloat | TDouble
    | TBigInteger | TBigDecimal | TNumber
    | TBoolean | TChar | TDate | TCalendar | TEnum | TBytes | TOther

  /** `Number.class.isAssignableFrom(t)` for the boxed classes. */
  predicate IsNumber(t: JType) {
    t.TInt? || t.TLong? || t.TShort? || t.TByte? || t.TFloat? || t.TDouble? ||
    t.TBigInteger? || t.TBigDecimal? || t.TNumber?
  }

  /** A persistable object as seen from a reference field: its identity token and life-cycle state. */
  datatype ObjRef = ObjRef(id: string, persistent: bool, detached: bool)

  /**
   * A Java field value.  Numbers are integers (the spreadsheet stores doubles,
   * whose fractional part the model does not carry).  Dates and calendars are
   * epoch milliseconds.  An enum constant carries its ordinal and name.
   */
  datatype Value =
    | VNull
    | VStr(s: string)
    | VNum(n: int)
    | VBool(b: bool)
    | VChar(c: char)
    | VDate(millis: int)
    | VCalendar(millis: int)
    | VEnum(ordinal: nat, name: string)
    | VBytes(bytes: seq<bv8>)
    | VRef(target: ObjRef)
    | VColl(elems: seq<Value>)
    | VArr(elems: seq<Value>)
    | VMap(entries: seq<(Value, Value)>)
    | VEmbedded(fields: seq<Value>)
    | VOther(text: string)

  /** The two directions of a single-column type converter. */
  datatype Conversion = Conversion(toDatastore: Value -> Value, toMember: Value -> Value)

  /**
   * A framework type converter.  An ordinary one maps a member value to one
   * datastore value of class `datastoreType`; a multi-column one maps it to
   * one value per column, of the classes in `columnTypes`.
   */
  datatype Converter =
    | Single(datastoreType: JType, conv: Conversion)
    | Multi(columnTypes: seq<JType>, toColumns: Value -> seq<Value>, fromColumns: seq<Value> -> Value)

  /**
   * The services of the host framework that the code calls out to.  They are
   * parameters: the model says what the plugin does with their answers, not
   * how the framework computes them.
   */
  datatype Env = Env(
    /** Identity string to object (`findObject` / `findObjectByPersistableIdentity`); `None` is not-found. */
    resolve: string -> Option<ObjRef>,
    /** `Base64.getEncoder().encodeToString` and `Base64.getDecoder().decode`. */
    encode64: seq<bv8> -> string,
    decode64: string -> seq<bv8>,
    /**
     * `TypeManager.getTypeConverterForType(type, Long.class)` and
     * `(type, String.class)`: the datastore side of the first is a long, of
     * the second a string.
     */
    longConverter: JType -> Option<Conversion>,
    stringConverter: JType -> Option<Conversion>,
    /** `String.valueOf` for values the model does not spell out. */
    text: Value -> string,
    /**
     * `EnumConversionHelper.getStoredValueFromEnum` (a number or a name) and
     * `getEnumForStoredValue`, its inverse.
     */
    enumToStored: Value -> Value,
    enumFromStored: Value -> Value)

  /** The class of a datastore identity key: a `String` or a `Long`. */
  function KeyType(key: Value): (t: JType)
    ensures key.VStr? <==> t == TString
  {
    if key.VStr? then TString else TLong
  }
}
