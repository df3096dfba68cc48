/**
 * The old tree's `MaxGenerator`: a value generator configured with a
 * sheet and a column, whose block reservation hands out no values.
 */
module Max {
  import opened Outcomes
  import opened JavaNum
  import opened JavaText

  type Properties = map<string, string>

  /** The generator's settings, fixed by its constructor. */
  datatype MaxGenerator = MaxGenerator(name: string, sheetName: string, columnIndex: int)

  /** `properties.getProperty(name)`: `None` is `null`. */
  function Property(props: Properties, name: string): Option<string>
  {
    if name in props then Some(props[name]) else None
  }

  /**
   * The constructor: "sheet-name" and "column-index" must be present and
   * not blank, and "column-index" must parse as an `int`.
   */
  function NewMaxGenerator(name: string, props: Properties): (r: Result<MaxGenerator>)
    ensures IsWhitespace(Property(props, "sheet-name")) ==> r == Failure(MissingProperty("sheet-name"))
    ensures !IsWhitespace(Property(props, "sheet-name")) && IsWhitespace(Property(props, "column-index")) ==>
              r == Failure(MissingProperty("column-index"))
    ensures r.Success? <==>
              !IsWhitespace(Property(props, "sheet-name")) && !IsWhitespace(Property(props, "column-index")) &&
              ParseInt(props["column-index"]).Some?
    ensures r.Failure? && !IsWhitespace(Property(props, "sheet-name")) && !IsWhitespace(Property(props, "column-index")) ==>
              r.fault == BadInteger(props["column-index"])
    ensures r.Success? ==> r.value.name == name && r.value.sheetName == props["sheet-name"] &&
                           Some(r.value.columnIndex) == ParseInt(props["column-index"]) && InInt(r.value.columnIndex)
  {
    var sheet := Property(props, "sheet-name");
    if IsWhitespace(sheet) then Failure(MissingProperty("sheet-name"))
    else
      var column := Property(props, "column-index");
      if IsWhitespace(column) then Failure(MissingProperty("column-index"))
      else
        match ParseInt(column.value)
        case None => Failure(BadInteger(column.value))
        case Some(c) => Success(MaxGenerator(name, sheet.value, c))
  }

  /** Properties naming a non-blank sheet and an `int` column, written out as the constructor expects them. */
  function PropertiesFor(sheetName: string, columnIndex: int): Properties
  {
    map["sheet-name" := sheetName, "column-index" := DecimalText(columnIndex)]
  }

  /** Configuring from the written-out settings gives those settings back. */
  lemma SettingsRoundTrip(name: string, sheetName: string, columnIndex: int)
    requires !IsWhitespace(Some(sheetName)) && InInt(columnIndex)
    ensures NewMaxGenerator(name, PropertiesFor(sheetName, columnIndex)) == Success(MaxGenerator(name, sheetName, columnIndex))
  {
    ParseDecimal(columnIndex);
    var text := DecimalText(columnIndex);
    assert !IsWhitespaceChar(text[|text| - 1]) by {
      if columnIndex < 0 {
        assert text[|text| - 1] == NatText(-columnIndex)[|NatText(-columnIndex)| - 1];
      }
    }
  }

  /** `reserveBlock`: whatever the size, the block holds no values. */
  function ReserveBlock(g: MaxGenerator, size: int): (block: seq<int>)
    ensures |block| == 0
  {
    []
  }
}
