/**
 * `ExcelCandidateList`: the lazily loaded result of a query over a
 * candidate class and its subclasses.  Its constructor counts, per class,
 * the rows whose identifying cell is present; a global index then selects
 * a class by the running totals of these counts and, in that class's
 * sheet, the row holding that many instances before it.  Both trees do
 * this the same way and differ only in where the identifying column is;
 * this module takes the column as part of each class's `Extent`.
 */
module Candidates {
  import opened Outcomes
  import opened Values
  import opened JavaNum
  import opened Cells
  import opened Mapping
  import opened RowAccounting
  import ExcelUtils
  import opened Bookkeeping

  /** One candidate class as the list sees it: its sheet, identity kind and identifying column. */
  datatype Extent = Extent(table: string, identity: Identity, idColumn: int)

  /** A class with application identity has a key field, as the framework's metadata guarantees. */
  predicate Keyed(cls: ClassMeta)
  {
    cls.identity.Application? ==> |cls.pkPositions| > 0
  }

  /** The current tree's column: the first key field's column, the datastore identity column, or column 0. */
  function ExtentOf(cls: ClassMeta): (e: Extent)
    requires cls.Valid() && Keyed(cls)
    ensures e.table == cls.table && e.identity == cls.identity
    ensures cls.identity.Application? ==> e.idColumn == cls.KeyColumn(0)
    ensures cls.identity.Datastore? ==> e.idColumn == cls.datastoreIdColumn
    ensures cls.identity.Nondurable? ==> e.idColumn == 0
  {
    match cls.identity
    case Application => Extent(cls.table, cls.identity, cls.KeyColumn(0))
    case Datastore => Extent(cls.table, cls.identity, cls.datastoreIdColumn)
    case Nondurable => Extent(cls.table, cls.identity, 0)
  }

  // ---- counting ----------------------------------------------------------------------------

  /**
   * The constructor's count for one class: 0 without a sheet or without
   * rows, else the rows with an identifying cell; a missing row inside
   * first..last is dereferenced.
   */
  function InstanceCount(sheets: map<string, Sheet>, e: Extent): (r: Result<nat>)
    ensures e.table !in sheets ==> r == Success(0)
    ensures e.table in sheets ==>
              r == if PhysicalRows(sheets[e.table]) > 0 && NullRowWithin(sheets[e.table]) then Failure(NullRow)
                   else Success(ActiveRows(sheets[e.table], [e.idColumn]))
  {
    if e.table !in sheets then Success(0)
    else
      var s := sheets[e.table];
      if PhysicalRows(s) == 0 then
        ExcelUtils.NoRowsNoneActive(s, [e.idColumn]);
        Success(0)
      else if NullRowWithin(s) then Failure(NullRow)
      else Success(ActiveRows(s, [e.idColumn]))
  }

  /** `numberInstancesPerClass`: the counts in class order, or the first failure. */
  function InstanceCounts(sheets: map<string, Sheet>, extents: seq<Extent>): (r: Result<seq<nat>>)
    ensures r.Success? ==> |r.value| == |extents|
    ensures r.Success? ==> forall k :: 0 <= k < |extents| ==> InstanceCount(sheets, extents[k]) == Success(r.value[k])
    ensures r.Failure? ==> exists k :: 0 <= k < |extents| && InstanceCount(sheets, extents[k]).Failure?
    decreases |extents|
  {
    if |extents| == 0 then Success([])
    else
      var n := |extents| - 1;
      var init :- InstanceCounts(sheets, extents[..n]);
      var c :- InstanceCount(sheets, extents[n]);
      Success(init + [c])
  }

  /** Once one class's count fails, the constructor fails with it. */
  lemma {:induction false} CountFailureStays(sheets: map<string, Sheet>, extents: seq<Extent>, k: nat)
    requires k <= |extents| && InstanceCounts(sheets, extents[..k]).Failure?
    ensures InstanceCounts(sheets, extents) == InstanceCounts(sheets, extents[..k])
    decreases |extents| - k
  {
    if k < |extents| {
      var n := |extents| - 1;
      var init := extents[..n];
      assert init[..k] == extents[..k];
      CountFailureStays(sheets, init, k);
      FailedPrefix(sheets, extents);
    } else {
      assert extents[..k] == extents;
    }
  }

  lemma FailedPrefix(sheets: map<string, Sheet>, extents: seq<Extent>)
    requires |extents| > 0 && InstanceCounts(sheets, extents[..|extents| - 1]).Failure?
    ensures InstanceCounts(sheets, extents) == InstanceCounts(sheets, extents[..|extents| - 1])
  {
  }

  /** The constructor's loop over the candidate classes. */
  method CountInstances(sheets: map<string, Sheet>, extents: seq<Extent>) returns (r: Result<seq<nat>>)
    ensures r == InstanceCounts(sheets, extents)
  {
    var numberInstancesPerClass: seq<nat> := [];
    for k := 0 to |extents|
      invariant InstanceCounts(sheets, extents[..k]) == Success(numberInstancesPerClass)
    {
      CountsStep(sheets, extents, k);
      var e := extents[k];
      var size := 0;
      if e.table in sheets && PhysicalRows(sheets[e.table]) > 0 {
        var counted := ExcelUtils.CountFrom(sheets[e.table], [e.idColumn], false);
        assert counted == InstanceCount(sheets, e);
        if counted.Failure? {
          CountFailureStays(sheets, extents, k + 1);
          return Failure(counted.fault);
        }
        size := counted.value;
      } else {
        assert InstanceCount(sheets, e) == Success(0);
      }
      numberInstancesPerClass := numberInstancesPerClass + [size];
    }
    assert extents[..|extents|] == extents;
    return Success(numberInstancesPerClass);
  }

  lemma CountsStep(sheets: map<string, Sheet>, extents: seq<Extent>, k: nat)
    requires k < |extents| && InstanceCounts(sheets, extents[..k]).Success?
    ensures var c := InstanceCount(sheets, extents[k]);
      InstanceCounts(sheets, extents[..k + 1]) ==
        if c.Failure? then Failure(c.fault) else Success(InstanceCounts(sheets, extents[..k]).value + [c.value])
  {
    assert extents[..k + 1][..k] == extents[..k];
  }

  /** The sum of the counts. */
  function Total(counts: seq<nat>): nat
  {
    if |counts| == 0 then 0 else Total(counts[..|counts| - 1]) + counts[|counts| - 1]
  }

  /** `getSize`. */
  method GetSize(counts: seq<nat>) returns (size: nat)
    ensures size == Total(counts)
  {
    size := 0;
    for i := 0 to |counts|
      invariant size == Total(counts[..i])
    {
      assert counts[..i + 1][..i] == counts[..i];
      size := size + counts[i];
    }
    assert counts[..|counts|] == counts;
  }

  /** The running totals only grow. */
  lemma {:induction false} TotalMonotone(counts: seq<nat>, a: nat, b: nat)
    requires a <= b <= |counts|
    ensures Total(counts[..a]) <= Total(counts[..b])
    decreases b
  {
    if a < b {
      assert counts[..b][..b - 1] == counts[..b - 1];
      TotalMonotone(counts, a, b - 1);
    }
  }

  /** The size is the number of rows with an identifying cell, over every class's sheet. */
  lemma {:induction false} SizeCountsInstances(sheets: map<string, Sheet>, extents: seq<Extent>)
    requires InstanceCounts(sheets, extents).Success?
    ensures Total(InstanceCounts(sheets, extents).value) == InstanceTotal(sheets, extents)
    decreases |extents|
  {
    if |extents| > 0 {
      var n := |extents| - 1;
      var counts := InstanceCounts(sheets, extents).value;
      assert counts[..n] == InstanceCounts(sheets, extents[..n]).value;
      SizeCountsInstances(sheets, extents[..n]);
    }
  }

  /** The rows with an identifying cell over the classes' sheets, a class without a sheet having none. */
  function InstanceTotal(sheets: map<string, Sheet>, extents: seq<Extent>): nat
  {
    if |extents| == 0 then 0
    else
      var e := extents[|extents| - 1];
      InstanceTotal(sheets, extents[..|extents| - 1]) + (if e.table in sheets then ActiveRows(sheets[e.table], [e.idColumn]) else 0)
  }

  // ---- retrieval ---------------------------------------------------------------------------

  /**
   * The identity `findObject` is given: for application identity the key
   * the framework reads through the fetch manager, for datastore identity
   * the identifying cell's text or its number cast to `long` (any other
   * kind of cell gives a `null` identity), for nondurable identity a fresh
   * `SCOID`.
   */
  datatype CandidateId = KeyFromRow | DatastoreKey(key: Value) | NullIdentity | NondurableIdentity

  /** The object the list yields: which class, which row, under which identity. */
  datatype Candidate = Candidate(extent: nat, row: nat, id: CandidateId)

  function IdOf(e: Extent, row: Row): CandidateId
  {
    match e.identity
    case Application => KeyFromRow
    case Nondurable => NondurableIdentity
    case Datastore =>
      match GetCell(row, e.idColumn)
      case Some(Str(s)) => DatastoreKey(VStr(s))
      case Some(Num(n)) => DatastoreKey(VNum(Int64(n)))
      case _ => NullIdentity
  }

  /**
   * The identity read from a row is the key insert wrote into its identity
   * cell: a `String` key as its text, a `long` key as its number.
   */
  lemma IdCellReadsBack(e: Extent, row: Row, key: Value)
    requires e.identity.Datastore? && e.idColumn >= 0
    requires key.VStr? || (key.VNum? && InLong(key.n))
    requires e.idColumn as nat in row && row[e.idColumn as nat] == IdCell(key).value
    ensures IdOf(e, row) == DatastoreKey(key)
  {
  }

  /** The row loop over `i..last`: the active row at which the running count reaches `index`. */
  function ScanRows(s: Sheet, e: Extent, k: nat, i: nat, last: int, current: int, index: int): Result<Option<Candidate>>
    requires last < |s|
    decreases last + 1 - i
  {
    if i > last then Success(None)
    else if s[i].None? then Failure(NullRow)
    else if GetCell(s[i].value, e.idColumn).Some? then
      if current == index then Success(Some(Candidate(k, i, IdOf(e, s[i].value))))
      else ScanRows(s, e, k, i + 1, last, current + 1, index)
    else ScanRows(s, e, k, i + 1, last, current, index)
  }

  /** The search in class `k`'s sheet, the count starting at `first`; no sheet, no object. */
  function InExtent(sheets: map<string, Sheet>, e: Extent, k: nat, index: int, first: int): Result<Option<Candidate>>
  {
    if e.table !in sheets then Success(None)
    else
      var s := sheets[e.table];
      ScanRows(s, e, k, FirstRowNum(s), LastRowNum(s), first, index)
  }

  /** The class loop: `first` advances past every class whose range does not hold the index. */
  function Walk(sheets: map<string, Sheet>, extents: seq<Extent>, counts: seq<nat>, index: int, first: int, k: nat): Result<Option<Candidate>>
    requires |counts| == |extents| && k <= |extents|
    decreases |extents| - k
  {
    if k == |extents| then Success(None)
    else if first <= index < first + counts[k] then
      var found :- InExtent(sheets, extents[k], k, index, first);
      if found.Some? then Success(found) else Walk(sheets, extents, counts, index, first, k + 1)
    else Walk(sheets, extents, counts, index, first + counts[k], k + 1)
  }

  /** `retrieveObjectForIndex`: an index outside 0..size-1 is refused; `None` is the `null` returned for no row. */
  function Retrieve(sheets: map<string, Sheet>, extents: seq<Extent>, counts: seq<nat>, index: int): (r: Result<Option<Candidate>>)
    requires |counts| == |extents|
    ensures index < 0 || index >= Total(counts) ==> r == Failure(NoSuchElement)
  {
    if index < 0 || index >= Total(counts) then Failure(NoSuchElement)
    else Walk(sheets, extents, counts, index, 0, 0)
  }

  /** The row loop of `retrieveObjectForIndex` in one sheet. */
  method ScanSheet(s: Sheet, e: Extent, k: nat, index: int, first: int) returns (r: Result<Option<Candidate>>)
    ensures r == ScanRows(s, e, k, FirstRowNum(s), LastRowNum(s), first, index)
  {
    var last := LastRowNum(s);
    var i := FirstRowNum(s);
    var current := first;
    while i <= last
      invariant ScanRows(s, e, k, FirstRowNum(s), last, first, index) == ScanRows(s, e, k, i, last, current, index)
      decreases last + 1 - i
    {
      var row := s[i];
      if row.None? {
        return Failure(NullRow);
      }
      if GetCell(row.value, e.idColumn).Some? {
        if current == index {
          return Success(Some(Candidate(k, i, IdOf(e, row.value))));
        }
        current := current + 1;
      }
      i := i + 1;
    }
    return Success(None);
  }

  /** `retrieveObjectForIndex` over the counts the constructor made. */
  method RetrieveObjectForIndex(sheets: map<string, Sheet>, extents: seq<Extent>, counts: seq<nat>, index: int) returns (r: Result<Option<Candidate>>)
    requires |counts| == |extents|
    ensures r == Retrieve(sheets, extents, counts, index)
  {
    var size := GetSize(counts);
    if index < 0 || index >= size {
      return Failure(NoSuchElement);
    }
    var first := 0;
    for k := 0 to |extents|
      invariant Walk(sheets, extents, counts, index, 0, 0) == Walk(sheets, extents, counts, index, first, k)
    {
      var number := counts[k];
      if index >= first && index < first + number {
        var e := extents[k];
        if e.table in sheets {
          var found := ScanSheet(sheets[e.table], e, k, index, first);
          if found.Failure? || found.value.Some? {
            return found;
          }
        }
      } else {
        first := first + number;
      }
    }
    return Success(None);
  }

  // ---- what an index selects -----------------------------------------------------------------

  /**
   * Candidate `c` is what index `index` denotes: the class whose range of
   * the running totals holds the index, and in its sheet the active row
   * with exactly `index - start of range` active rows before it.
   */
  predicate Selected(sheets: map<string, Sheet>, extents: seq<Extent>, counts: seq<nat>, index: int, c: Candidate)
    requires |counts| == |extents|
  {
    c.extent < |extents| &&
    Total(counts[..c.extent]) <= index < Total(counts[..c.extent + 1]) &&
    var e := extents[c.extent];
    e.table in sheets &&
    var s := sheets[e.table];
    c.row < |s| && ActiveAt(s, c.row, [e.idColumn]) &&
    ActiveRows(s[..c.row], [e.idColumn]) == index - Total(counts[..c.extent]) &&
    c.id == IdOf(e, s[c.row].value)
  }

  /** A slice splits into its first row and the rest for counting. */
  lemma CountFront(s: Sheet, cols: seq<int>, i: nat, j: nat)
    requires i < j <= |s|
    ensures ActiveRows(s[i..j], cols) == (if ActiveAt(s, i, cols) then 1 else 0) + ActiveRows(s[i + 1..j], cols)
  {
    assert s[i..j] == [s[i]] + s[i + 1..j];
    ActiveRowsAppend([s[i]], s[i + 1..j], cols);
    ActiveRowsSingle(s[i], cols);
  }

  /**
   * The row loop finds the row: with no missing row left before `last` and
   * the index within the active rows still ahead, it returns the active
   * row with `index - current` active rows between `i` and it.
   */
  lemma {:induction false} ScanFinds(s: Sheet, e: Extent, k: nat, i: nat, last: int, current: int, index: int)
    requires last < |s| && i <= last + 1
    requires forall j :: i <= j <= last ==> s[j].Some?
    requires current <= index < current + ActiveRows(s[i..last + 1], [e.idColumn])
    ensures var r := ScanRows(s, e, k, i, last, current, index);
            r.Success? && r.value.Some? && r.value.value.extent == k &&
            var j := r.value.value.row;
            i <= j <= last && ActiveAt(s, j, [e.idColumn]) &&
            ActiveRows(s[i..j], [e.idColumn]) == index - current &&
            r.value.value.id == IdOf(e, s[j].value)
    decreases last + 1 - i
  {
    var cols := [e.idColumn];
    assert i <= last;
    CountFront(s, cols, i, last + 1);
    assert |cols| == 1 && cols[0] == e.idColumn;
    assert ActiveAt(s, i, cols) <==> GetCell(s[i].value, e.idColumn).Some?;
    var active := GetCell(s[i].value, e.idColumn).Some?;
    if active && current == index {
      assert s[i..i] == [];
    } else {
      var next := if active then current + 1 else current;
      ScanFinds(s, e, k, i + 1, last, next, index);
      var j := ScanRows(s, e, k, i + 1, last, next, index).value.value.row;
      CountFront(s, cols, i, j);
    }
  }

  /** The rows before a sheet's first row and after its last hold no instance. */
  lemma CountWithinBounds(s: Sheet, cols: seq<int>, j: nat)
    requires FirstRowNum(s) <= j <= |s|
    ensures ActiveRows(s[..j], cols) == ActiveRows(s[FirstRowNum(s)..j], cols)
    ensures LastRowNum(s) + 1 >= FirstRowNum(s) ==>
              ActiveRows(s, cols) == ActiveRows(s[FirstRowNum(s)..LastRowNum(s) + 1], cols)
  {
    var f := FirstRowNum(s);
    SkipBeforeFirst(s, cols, j);
    var l := LastRowNum(s) + 1;
    if l >= f {
      SkipAfterLast(s, cols);
      SkipBeforeFirst(s, cols, l);
    }
  }

  lemma SkipBeforeFirst(s: Sheet, cols: seq<int>, j: nat)
    requires FirstRowNum(s) <= j <= |s|
    ensures ActiveRows(s[..j], cols) == ActiveRows(s[FirstRowNum(s)..j], cols)
  {
    var f := FirstRowNum(s);
    assert s[..j] == s[..f] + s[f..j];
    ActiveRowsAppend(s[..f], s[f..j], cols);
    ExcelUtils.NoRowsNoneActive(s[..f], cols);
  }

  lemma SkipAfterLast(s: Sheet, cols: seq<int>)
    ensures ActiveRows(s, cols) == ActiveRows(s[..LastRowNum(s) + 1], cols)
  {
    var l := LastRowNum(s) + 1;
    assert s == s[..l] + s[l..];
    ActiveRowsAppend(s[..l], s[l..], cols);
    ExcelUtils.NoRowsNoneActive(s[l..], cols);
  }

  /** A sheet whose count succeeds has no missing row between its first and its last. */
  lemma CountedSheet(sheets: map<string, Sheet>, e: Extent)
    requires InstanceCount(sheets, e).Success? && e.table in sheets && PhysicalRows(sheets[e.table]) > 0
    ensures var s := sheets[e.table];
            InstanceCount(sheets, e).value == ActiveRows(s, [e.idColumn]) &&
            forall j :: FirstRowNum(s) <= j <= LastRowNum(s) ==> s[j].Some?
  {
  }

  /** The search in one class's sheet finds the row the index denotes within that class. */
  lemma InExtentFinds(sheets: map<string, Sheet>, e: Extent, k: nat, index: int, first: int)
    requires InstanceCount(sheets, e).Success?
    requires first <= index < first + InstanceCount(sheets, e).value
    ensures var r := InExtent(sheets, e, k, index, first);
            r.Success? && r.value.Some? && r.value.value.extent == k &&
            e.table in sheets &&
            var s, j := sheets[e.table], r.value.value.row;
            j < |s| && ActiveAt(s, j, [e.idColumn]) &&
            ActiveRows(s[..j], [e.idColumn]) == index - first && r.value.value.id == IdOf(e, s[j].value)
  {
    assert PhysicalRows(sheets[e.table]) > 0;
    CountedSheet(sheets, e);
    ScanFromFirst(sheets[e.table], e, k, index, first);
  }

  /** The row loop from the first row to the last finds the row the index denotes. */
  lemma ScanFromFirst(s: Sheet, e: Extent, k: nat, index: int, first: int)
    requires PhysicalRows(s) > 0 && forall j :: FirstRowNum(s) <= j <= LastRowNum(s) ==> s[j].Some?
    requires first <= index < first + ActiveRows(s, [e.idColumn])
    ensures var r := ScanRows(s, e, k, FirstRowNum(s), LastRowNum(s), first, index);
            r.Success? && r.value.Some? && r.value.value.extent == k &&
            var j := r.value.value.row;
            j < |s| && ActiveAt(s, j, [e.idColumn]) &&
            ActiveRows(s[..j], [e.idColumn]) == index - first && r.value.value.id == IdOf(e, s[j].value)
  {
    var cols := [e.idColumn];
    var f, l := FirstRowNum(s), LastRowNum(s);
    assert f <= l by {
      var w :| 0 <= w < |s| && s[w].Some?;
      assert f <= w <= l;
    }
    CountWithinBounds(s, cols, f);
    ScanFinds(s, e, k, f, l, first, index);
    var j := ScanRows(s, e, k, f, l, first, index).value.value.row;
    CountWithinBounds(s, cols, j);
  }

  /** The class whose range holds the index: its search is what the class loop returns, and it is selected. */
  lemma WalkHere(sheets: map<string, Sheet>, extents: seq<Extent>, counts: seq<nat>, index: int, k: nat)
    requires |counts| == |extents| && k < |extents|
    requires InstanceCount(sheets, extents[k]) == Success(counts[k])
    requires Total(counts[..k]) <= index < Total(counts[..k]) + counts[k]
    ensures var r := Walk(sheets, extents, counts, index, Total(counts[..k]), k);
            r.Success? && r.value.Some? && Selected(sheets, extents, counts, index, r.value.value)
  {
    var first := Total(counts[..k]);
    assert counts[..k + 1][..k] == counts[..k];
    InExtentFinds(sheets, extents[k], k, index, first);
  }

  /** A class whose range does not hold the index only moves the start of the next range. */
  lemma WalkSkips(sheets: map<string, Sheet>, extents: seq<Extent>, counts: seq<nat>, index: int, first: int, next: int, k: nat)
    requires |counts| == |extents| && k < |extents| && next == first + counts[k]
    requires !(first <= index < next)
    ensures Walk(sheets, extents, counts, index, first, k) == Walk(sheets, extents, counts, index, next, k + 1)
  {
  }

  /** The class loop reaches the class whose range holds the index and returns its row. */
  lemma {:induction false} WalkSelects(sheets: map<string, Sheet>, extents: seq<Extent>, counts: seq<nat>, index: int, k: nat)
    requires |counts| == |extents|
    requires forall j :: 0 <= j < |extents| ==> InstanceCount(sheets, extents[j]) == Success(counts[j])
    requires k <= |extents|
    requires Total(counts[..k]) <= index < Total(counts)
    ensures var r := Walk(sheets, extents, counts, index, Total(counts[..k]), k);
            r.Success? && r.value.Some? && Selected(sheets, extents, counts, index, r.value.value)
    decreases |extents| - k
  {
    assert counts[..|counts|] == counts;
    assert k < |extents|;
    var first := Total(counts[..k]);
    assert counts[..k + 1][..k] == counts[..k];
    var next := Total(counts[..k + 1]);
    assert next == first + counts[k];
    if index < next {
      assert InstanceCount(sheets, extents[k]) == Success(counts[k]);
      WalkHere(sheets, extents, counts, index, k);
    } else {
      WalkSelects(sheets, extents, counts, index, k + 1);
      WalkSkips(sheets, extents, counts, index, first, next, k);
    }
  }

  /**
   * Every index within the size selects an object, and it is the one the
   * index denotes (`Selected`).
   */
  lemma RetrieveSelects(sheets: map<string, Sheet>, extents: seq<Extent>, index: int)
    requires InstanceCounts(sheets, extents).Success?
    requires 0 <= index < Total(InstanceCounts(sheets, extents).value)
    ensures var counts := InstanceCounts(sheets, extents).value;
            var r := Retrieve(sheets, extents, counts, index);
            r.Success? && r.value.Some? && Selected(sheets, extents, counts, index, r.value.value)
  {
    var counts := InstanceCounts(sheets, extents).value;
    assert counts[..0] == [];
    WalkSelects(sheets, extents, counts, index, 0);
  }

  /** Different indices select different rows: the list holds each object once. */
  lemma SelectedInjective(sheets: map<string, Sheet>, extents: seq<Extent>, counts: seq<nat>, i1: int, i2: int, c1: Candidate, c2: Candidate)
    requires |counts| == |extents|
    requires Selected(sheets, extents, counts, i1, c1) && Selected(sheets, extents, counts, i2, c2)
    requires c1.extent == c2.extent && c1.row == c2.row
    ensures i1 == i2
  {
  }

  /** Indices in different classes' ranges are different objects' indices: the ranges do not overlap. */
  lemma RangesDisjoint(sheets: map<string, Sheet>, extents: seq<Extent>, counts: seq<nat>, i1: int, i2: int, c1: Candidate, c2: Candidate)
    requires |counts| == |extents|
    requires Selected(sheets, extents, counts, i1, c1) && Selected(sheets, extents, counts, i2, c2)
    requires c1.extent < c2.extent
    ensures i1 < i2
  {
    TotalMonotone(counts, c1.extent + 1, c2.extent);
  }

  /**
   * For datastore and nondurable identity the list counts a class's
   * instances as the handler's row count does; for application identity
   * with a single key field too, whenever the list's count succeeds.
   */
  lemma InstanceCountAgreesWithRowCount(sheets: map<string, Sheet>, cls: ClassMeta)
    requires cls.Valid() && Keyed(cls)
    requires InstanceCount(sheets, ExtentOf(cls)).Success?
    requires cls.identity.Application? ==> |cls.pkPositions| == 1
    ensures ExcelUtils.RowCount(sheets, cls) == InstanceCount(sheets, ExtentOf(cls))
  {
    if cls.identity.Application? {
      assert ExcelUtils.KeyColumns(cls) == [cls.KeyColumn(0)];
    }
  }
}
