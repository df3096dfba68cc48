/**
 * The old tree's `IncrementGenerator`: a value generator that keeps, per
 * key, a counter in a sheet of its own (by default "IncrementTable"), one
 * row per key with the key in column 0 and the last value handed out in
 * column 1.  Reserving a block of `size` values hands out the `size`
 * values after the counter and advances the counter by `size`.
 */
module Increment {
  import opened Outcomes
  import opened JavaNum
  import opened JavaText
  import opened Cells
  import opened Bookkeeping

  /** `java.util.Properties` as the generator reads it. */
  type Properties = map<string, string>

  const DefaultSheet: string := "IncrementTable"

  /** The generator's settings, fixed by its constructor. */
  datatype IncrementGenerator = IncrementGenerator(name: string, key: string, worksheetName: string, allocationSize: int)

  /**
   * The constructor: the key is the "field-name" property or the
   * generator's name, the sheet the "sequence-table-name" property or
   * "IncrementTable", and the allocation size the "key-cache-size"
   * property parsed by `Integer.valueOf`, or 1 without it.
   */
  function NewGenerator(name: string, props: Properties): (r: Result<IncrementGenerator>)
    ensures r.Failure? <==> "key-cache-size" in props && ParseInt(props["key-cache-size"]).None?
    ensures r.Failure? ==> r.fault == BadInteger(props["key-cache-size"])
    ensures r.Success? ==> r.value.name == name
    ensures r.Success? ==> r.value.key == (if "field-name" in props then props["field-name"] else name)
    ensures r.Success? ==> r.value.worksheetName == (if "sequence-table-name" in props then props["sequence-table-name"] else DefaultSheet)
    ensures r.Success? && "key-cache-size" !in props ==> r.value.allocationSize == 1
    ensures r.Success? && "key-cache-size" in props ==> Some(r.value.allocationSize) == ParseInt(props["key-cache-size"])
  {
    var key := if "field-name" in props then props["field-name"] else name;
    var sheet := if "sequence-table-name" in props then props["sequence-table-name"] else DefaultSheet;
    if "key-cache-size" in props then
      var text := props["key-cache-size"];
      match ParseInt(text)
      case None => Failure(BadInteger(text))
      case Some(n) => Success(IncrementGenerator(name, key, sheet, n))
    else Success(IncrementGenerator(name, key, sheet, 1))
  }

  /** The values a block starting after `current` holds: `current + 1`, …, `current + size`. */
  function Block(current: int, size: nat): (b: seq<int>)
    ensures |b| == size
    ensures forall i :: 0 <= i < size ==> b[i] == current + 1 + i
  {
    seq(size, i => current + 1 + i)
  }

  /** A new counter row: the key in column 0 and the counter in column 1. */
  function CounterCells(key: string, value: int): Row
  {
    map[0 := Str(key), 1 := Num(value)]
  }

  /**
   * The search for the key's row from row `i` on: null rows are skipped,
   * a row without a cell in column 0 is dereferenced, and a cell that is
   * not text cannot be read as a string.
   */
  function FindFrom(s: Sheet, key: string, i: nat): (r: Result<Option<nat>>)
    ensures r.Failure? ==> r.fault == NullCell || r.fault == WrongCellKind
    ensures r.Success? && r.value.Some? ==>
              var j := r.value.value;
              i <= j < |s| && s[j].Some? && GetCell(s[j].value, 0).Some? && StringOf(GetCell(s[j].value, 0).value) == Some(key)
    decreases |s| - i
  {
    if i >= |s| then Success(None)
    else if s[i].None? then FindFrom(s, key, i + 1)
    else
      match GetCell(s[i].value, 0)
      case None => Failure(NullCell)
      case Some(c) =>
        match StringOf(c)
        case None => Failure(WrongCellKind)
        case Some(text) => if text == key then Success(Some(i)) else FindFrom(s, key, i + 1)
  }

  /** `(long) valueCell.getNumericCellValue()` on the key's row. */
  function CounterOf(row: Row): Result<int>
  {
    match GetCell(row, 1)
    case None => Failure(NullCell)
    case Some(c) =>
      match NumberOf(c)
      case None => Failure(WrongCellKind)
      case Some(v) => Success(Int64(v))
  }

  /** The counter the next reservation starts from: 0 without a sheet or a row for the key. */
  function Counter(sheets: map<string, Sheet>, g: IncrementGenerator): Result<int>
  {
    if g.worksheetName !in sheets then Success(0)
    else
      var s := sheets[g.worksheetName];
      var found :- FindFrom(s, g.key, 0);
      if found.None? then Success(0) else CounterOf(s[found.value].value)
  }

  /**
   * `reserveBlock(size)`: the new sheets and the block, `None` being the
   * `null` returned for a size below 1.  A missing sheet is created only
   * with auto-creation on; a missing row is appended after the last one.
   */
  function Reserve(sheets: map<string, Sheet>, g: IncrementGenerator, autoCreate: bool, size: int): (r: Result<(map<string, Sheet>, Option<seq<int>>)>)
    ensures size < 1 ==> r == Success((sheets, None))
    ensures size >= 1 && g.worksheetName !in sheets ==>
              (r.Failure? <==> !autoCreate) && (r.Failure? ==> r.fault == NoAutoCreate(g.worksheetName))
    ensures r.Failure? ==> size >= 1 && (r.fault == NoAutoCreate(g.worksheetName) || r.fault == NullCell || r.fault == WrongCellKind)
    ensures r.Success? && size >= 1 ==> r.value.1.Some? && |r.value.1.value| == size
  {
    if size < 1 then Success((sheets, None))
    else if g.worksheetName !in sheets then
      if !autoCreate then Failure(NoAutoCreate(g.worksheetName))
      else Success((sheets[g.worksheetName := [Some(CounterCells(g.key, size))]], Some(Block(0, size))))
    else
      var s := sheets[g.worksheetName];
      var found :- FindFrom(s, g.key, 0);
      if found.None? then
        Success((sheets[g.worksheetName := PutRow(s, LastRowNum(s) + 1, CounterCells(g.key, size))], Some(Block(0, size))))
      else
        var j := found.value;
        var current :- CounterOf(s[j].value);
        Success((sheets[g.worksheetName := s[j := Some(s[j].value[1 := Num(current + size)])]], Some(Block(current, size))))
  }

  // ---- what a reservation hands out ------------------------------------------------------

  /** A reservation writes only the generator's sheet. */
  lemma ReserveWritesOnlyItsSheet(sheets: map<string, Sheet>, g: IncrementGenerator, autoCreate: bool, size: int)
    requires Reserve(sheets, g, autoCreate, size).Success?
    ensures var after := Reserve(sheets, g, autoCreate, size).value.0;
            after.Keys == sheets.Keys + (if size >= 1 then {g.worksheetName} else {}) &&
            forall name :: name in sheets && name != g.worksheetName ==> after[name] == sheets[name]
  {
  }

  /** Changing a found row without touching column 0 leaves the search finding it. */
  lemma {:induction false} FoundRowStays(s: Sheet, key: string, i: nat, j: nat, row: Row)
    requires FindFrom(s, key, i) == Success(Some(j))
    requires GetCell(row, 0) == GetCell(s[j].value, 0)
    ensures FindFrom(s[j := Some(row)], key, i) == Success(Some(j))
    decreases |s| - i
  {
    if i < j {
      FoundRowStays(s, key, i + 1, j, row);
    }
  }

  /** When the search finds nothing, a row with the key put in a row slot it saw empty is found. */
  lemma {:induction false} AppendedRowFound(s: Sheet, key: string, i: nat, n: nat, row: Row)
    requires FindFrom(s, key, i) == Success(None)
    requires i <= n && GetRow(s, n).None?
    requires GetCell(row, 0) == Some(Str(key))
    ensures FindFrom(PutRow(s, n, row), key, i) == Success(Some(n))
    decreases n - i
  {
    var t := PutRow(s, n, row);
    if i < n {
      assert t[i] == GetRow(s, i);
      AppendedRowFound(s, key, i + 1, n, row);
    }
  }

  /**
   * A reservation of `size >= 1` hands out the block after the counter it
   * starts from and leaves the counter `size` further on.
   */
  lemma ReserveAdvancesCounter(sheets: map<string, Sheet>, g: IncrementGenerator, autoCreate: bool, size: int)
    requires size >= 1 && Reserve(sheets, g, autoCreate, size).Success?
    ensures Counter(sheets, g).Success?
    ensures var res := Reserve(sheets, g, autoCreate, size).value;
            var current := Counter(sheets, g).value;
            res.1 == Some(Block(current, size)) &&
            g.worksheetName in res.0 && FindFrom(res.0[g.worksheetName], g.key, 0).Success? &&
            FindFrom(res.0[g.worksheetName], g.key, 0).value.Some? &&
            Counter(res.0, g) == Success(Int64(current + size))
  {
    var after := Reserve(sheets, g, autoCreate, size).value.0;
    var name := g.worksheetName;
    if name !in sheets {
      assert after[name] == [Some(CounterCells(g.key, size))];
      assert FindFrom(after[name], g.key, 0) == Success(Some(0));
    } else {
      var s := sheets[name];
      var found := FindFrom(s, g.key, 0).value;
      if found.None? {
        var n := LastRowNum(s) + 1;
        AppendedRowFound(s, g.key, 0, n, CounterCells(g.key, size));
      } else {
        var j := found.value;
        var current := CounterOf(s[j].value).value;
        FoundRowStays(s, g.key, 0, j, s[j].value[1 := Num(current + size)]);
      }
    }
  }

  /**
   * Two reservations in a row for the same key: the second one succeeds,
   * and together they hand out one contiguous block, so no value is handed
   * out twice.  The counter is read back as a `long`, so it must not pass
   * `Long.MAX_VALUE`.
   */
  lemma ConsecutiveReservations(sheets: map<string, Sheet>, g: IncrementGenerator, autoCreate: bool, n1: int, n2: int)
    requires n1 >= 1 && n2 >= 1
    requires Reserve(sheets, g, autoCreate, n1).Success?
    requires Counter(sheets, g).Success? && InLong(Counter(sheets, g).value + n1)
    ensures var first := Reserve(sheets, g, autoCreate, n1).value;
            var second := Reserve(first.0, g, autoCreate, n2);
            second.Success? && first.1.Some? && second.value.1.Some? &&
            first.1.value + second.value.1.value == Block(Counter(sheets, g).value, n1 + n2) &&
            forall x, y :: x in first.1.value && y in second.value.1.value ==> x < y
  {
    var first := Reserve(sheets, g, autoCreate, n1).value;
    var current := Counter(sheets, g).value;
    ReserveAdvancesCounter(sheets, g, autoCreate, n1);
    assert g.worksheetName in first.0;
    var s := first.0[g.worksheetName];
    var found := FindFrom(s, g.key, 0);
    assert found.Success? && found.value.Some?;
    assert Reserve(first.0, g, autoCreate, n2).Success?;
    ReserveAdvancesCounter(first.0, g, autoCreate, n2);
    var second := Reserve(first.0, g, autoCreate, n2).value;
    assert first.1.value + second.1.value == Block(current, n1 + n2);
  }

  // ---- the method -------------------------------------------------------------------------

  /** The search loop over the sheet's first..last rows. */
  method FindCounterRow(s: Sheet, key: string) returns (r: Result<Option<nat>>)
    ensures r == FindFrom(s, key, 0)
  {
    SkipLeadingNullRows(s, key, 0);
    var last := LastRowNum(s);
    var i := FirstRowNum(s);
    while i < last + 1
      invariant FindFrom(s, key, 0) == FindFrom(s, key, i)
      decreases last + 1 - i
    {
      var tblRow := s[i];
      if tblRow.Some? {
        var tblCell := GetCell(tblRow.value, 0);
        if tblCell.None? {
          return Failure(NullCell);
        }
        var text := StringOf(tblCell.value);
        if text.None? {
          return Failure(WrongCellKind);
        }
        if text.value == key {
          return Success(Some(i));
        }
      }
      i := i + 1;
    }
    NoRowsLeft(s, key, i);
    return Success(None);
  }

  /** Rows before the first present row are skipped. */
  lemma {:induction false} SkipLeadingNullRows(s: Sheet, key: string, i: nat)
    requires i <= FirstRowNum(s)
    ensures FindFrom(s, key, i) == FindFrom(s, key, FirstRowNum(s))
    decreases FirstRowNum(s) - i
  {
    if i < FirstRowNum(s) {
      SkipLeadingNullRows(s, key, i + 1);
    }
  }

  /** Past the last present row the search finds nothing. */
  lemma {:induction false} NoRowsLeft(s: Sheet, key: string, i: nat)
    requires i > LastRowNum(s)
    ensures FindFrom(s, key, i) == Success(None)
    decreases |s| - i
  {
    if i < |s| {
      NoRowsLeft(s, key, i + 1);
    }
  }

  /** The counter update and the loop that lists the block's values. */
  method ListBlock(current: int, size: nat) returns (oids: seq<int>)
    ensures oids == Block(current, size)
  {
    oids := [];
    var currentVal := current;
    for i := 0 to size
      invariant oids == Block(current, i) && currentVal == current + i
    {
      oids := oids + [currentVal + 1];
      currentVal := currentVal + 1;
    }
  }

  /** `reserveBlock(size)` on the connection's workbook. */
  method ReserveBlock(wb: Workbook, g: IncrementGenerator, autoCreate: bool, size: int) returns (r: Result<Option<seq<int>>>)
    modifies wb
    ensures var spec := Reserve(old(wb.sheets), g, autoCreate, size);
            if spec.Success? then r == Success(spec.value.1) && wb.sheets == spec.value.0
            else r == Failure(spec.fault) && wb.sheets == old(wb.sheets)
  {
    if size < 1 {
      return Success(None);
    }
    var name := g.worksheetName;
    var current := 0;
    if name !in wb.sheets {
      if !autoCreate {
        return Failure(NoAutoCreate(name));
      }
      wb.sheets := wb.sheets[name := [Some(CounterCells(g.key, size))]];
    } else {
      var s := wb.sheets[name];
      var found := FindCounterRow(s, g.key);
      if found.Failure? {
        return Failure(found.fault);
      }
      if found.value.None? {
        wb.sheets := wb.sheets[name := PutRow(s, LastRowNum(s) + 1, CounterCells(g.key, size))];
      } else {
        var j := found.value.value;
        var row := s[j].value;
        var value := CounterOf(row);
        if value.Failure? {
          return Failure(value.fault);
        }
        current := value.value;
        wb.sheets := wb.sheets[name := s[j := Some(row[1 := Num(current + size)])]];
      }
    }
    var oids := ListBlock(current, size);
    return Success(Some(oids));
  }
}
