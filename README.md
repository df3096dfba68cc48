# A Dafny model of the DataNucleus Excel store plugin

DataNucleus Excel stores persistent Java objects in a spreadsheet workbook
(XLS through Apache POI's HSSF, OOXML through XSSF). Each persistent class
gets one sheet and each object one row. Each member of the class occupies a
fixed column, and a datastore identity and a version may take surrogate
columns of their own. The plugin finds an object's row by a linear scan
that compares cells against the identity. It converts field values to and
from cells, and it keeps the rows consistent across insert, update, delete
and fetch. POI cannot remove the last row of an XLS sheet, so a delete there
only clears the row's cells; counting the live rows must then skip such
rows.

The repository holds two versions of this code: the current tree
(`src/main/java`) and an older one (`src/java`). The older tree resolves
columns from the user's column metadata itself. It has its own store and
fetch field managers and its own persistence handler. Both are modelled,
each in its own modules. Pieces the two share are defined once.

| Dafny module | models |
|---|---|
| `Outcomes` | the faults the code throws, as a `Result` |
| `JavaNum`, `JavaText` | Java's integer ranges and casts, `Integer.valueOf` and decimal text |
| `Values` | Java values, the classes the code dispatches on, and the framework services it calls (`Env`) |
| `Cells` | POI cells, rows and sheets; `ExcelUtils.cellMatches` and the row scan |
| `RowAccounting` | the active-row counts of both trees |
| `Mapping`, `ExcelUtils` | the current tree's class metadata, identity and version columns, and row lookup |
| `LegacyMapping`, `LegacyExcelUtils` | the older tree's metadata, its column resolver and its row lookup |
| `RefText` | the bracketed `[id1,id2]` text of references, collections, arrays and maps |
| `StoreFields`, `FetchFields` | the current `StoreFieldManager` (a class over the row it fills) and `FetchFieldManager` |
| `LegacyStoreFields`, `LegacyFetchFields` | the older tree's field managers |
| `Bookkeeping` | the workbook (a class over its sheets): row creation, removal and shifting, identity and version cells |
| `Persistence`, `LegacyPersistence` | `ExcelPersistenceHandler` of each tree: insert, update, delete, fetch, locate |
| `Candidates`, `LegacyCandidates` | `ExcelCandidateList`: the size of a query's candidate list and the identity of each candidate |
| `Increment`, `Max` | the older tree's `IncrementGenerator` and `MaxGenerator` |
| `Connection` | the URL parsing of `ConnectionFactoryImpl` |

The framework's metadata is modelled as a value: per class its sheet, its
identity kind, its members and their columns. The framework's services are
function parameters of an `Env`. These are identity lookup
(`findObject`), Base64, type converters, enum conversion and `String.valueOf`
for values the model does not spell out. The model states what the plugin
does with their answers.

In the current tree a member's column is its `Table` column position. The
resolver that reads an explicit position, then a column name holding a number,
then falls back to the member's number, exists only in the older tree. Each
variant is modelled as its code does it, except where a finding below shows the
code to be wrong. There the operations build on the corrected definition, and
"## Left out" names every member this affects.

## Model

| member | source | states |
|---|---|---|
| Cells.CellMatches | src/main/java/org/datanucleus/store/excel/ExcelUtils.java:301-348 | A match needs a present cell and one of the compared classes; a number class needs a numeric value and a cell read as a number; `char` needs a character value equal to the first character of the cell's non-empty text. |
| Cells.AbsentCellNeverMatches | src/main/java/org/datanucleus/store/excel/ExcelUtils.java:301-306 | `cellMatches` is false for an absent cell, whatever class and value it is given. |
| Cells.StringAndIntMatching | src/main/java/org/datanucleus/store/excel/ExcelUtils.java:308-325 | A `String` column matches exactly the text cells equal to the value (a blank cell reading as the empty text); an `int` column matches exactly the numeric cells whose number truncated to `int` is the value (a blank cell reading as 0). |
| Cells.OtherClassesNeverMatch | src/main/java/org/datanucleus/store/excel/ExcelUtils.java:341-348 | A class the comparison has no branch for matches no cell. |
| Cells.FirstMatch | src/main/java/org/datanucleus/store/excel/ExcelUtils.java:144-174 | The result is -1 exactly when no row matches; otherwise it is a matching row with no matching row before it. |
| Cells.PresentRowWithinBounds | src/main/java/org/datanucleus/store/excel/ExcelUtils.java:146-148 | Every present row lies between `getFirstRowNum` and `getLastRowNum`, and a sheet with a present row has a positive physical row count, so the scan visits every present row. |
| RowAccounting.ActiveRows | src/main/java/org/datanucleus/store/excel/ExcelUtils.java:360-439 | The active-row count never exceeds the sheet's length. |
| RowAccounting.ActiveRowsIsCardinality | src/main/java/org/datanucleus/store/excel/ExcelUtils.java:360-439 | The active-row count equals the size of the set of active row indices, so each active row counts exactly once. |
| RowAccounting.ActiveRowsAppend | src/main/java/org/datanucleus/store/excel/ExcelUtils.java:377-435 | Counting active rows splits over the concatenation of two sheets. |
| RowAccounting.PresentCellsOfFullRow | src/java/org/datanucleus/store/excel/ExcelUtils.java:516-532 | A row holding every identifying cell contributes one count per identifying column. |
| RowAccounting.PresentCellTotalBounds | src/java/org/datanucleus/store/excel/ExcelUtils.java:516-532 | The per-cell total is at least the number of columns times the active rows, and at most the columns times the present rows. |
| RowAccounting.PresentCellTotalOfActiveRows | src/java/org/datanucleus/store/excel/ExcelUtils.java:516-532 | When every present row holds all identifying cells, the per-cell total is the columns times the active rows. |
| RowAccounting.PresentCellTotalSingleColumn | src/java/org/datanucleus/store/excel/ExcelUtils.java:516-532 | With one identifying column the per-cell total equals the active-row count. |
| ExcelUtils.SheetForClass | src/main/java/org/datanucleus/store/excel/ExcelUtils.java:59-68 | Returns the class's sheet when the workbook has one under the table name, and a datastore error exactly when it has none. |
| ExcelUtils.Converted | src/main/java/org/datanucleus/store/excel/ExcelUtils.java:115-140 | A converted key is compared as the converter's datastore class at the member's column; a multi-column converter compares nothing that can match. |
| ExcelUtils.EmbeddedCriteria | src/main/java/org/datanucleus/store/excel/ExcelUtils.java:97-126 | One comparison for each of the first n embedded members. |
| ExcelUtils.NondurableValue | src/main/java/org/datanucleus/store/excel/ExcelUtils.java:213-228 | With original values requested, the stored original value is used when it is not `null`, else the current value; otherwise the current value. |
| ExcelUtils.RowNumber | src/main/java/org/datanucleus/store/excel/ExcelUtils.java:80-292 | -1 when the sheet is missing or no row satisfies every comparison; otherwise the first row that does. |
| ExcelUtils.CollectEmbedded | src/main/java/org/datanucleus/store/excel/ExcelUtils.java:97-126 | The comparisons the embedded-members loop collects are the embedded criteria. |
| ExcelUtils.CollectKeyMember | src/main/java/org/datanucleus/store/excel/ExcelUtils.java:92-141 | The comparisons of one key member: its embedded members, its converted value, or its value at its column. |
| ExcelUtils.CollectKeyCriteria | src/main/java/org/datanucleus/store/excel/ExcelUtils.java:83-142 | The key-member loop collects one key member's comparisons after another, in key order. |
| ExcelUtils.CollectNondurableCriteria | src/main/java/org/datanucleus/store/excel/ExcelUtils.java:198-257 | The nondurable loop compares only non-relation members and embedded ones, using the nondurable value of each. |
| ExcelUtils.MatchesAll | src/main/java/org/datanucleus/store/excel/ExcelUtils.java:258-289 | A row passes exactly when every comparison holds for it. |
| ExcelUtils.ScanFrom | src/main/java/org/datanucleus/store/excel/ExcelUtils.java:144-174 | The row loop returns the first row from its start to the last row that passes, or -1; missing rows are skipped. |
| ExcelUtils.FirstMatchIsLeast | src/main/java/org/datanucleus/store/excel/ExcelUtils.java:144-174 | A matching row with no match before it is the first match. |
| ExcelUtils.GetRowNumber | src/main/java/org/datanucleus/store/excel/ExcelUtils.java:80-292 | The method returns the row index `RowNumber` states. |
| ExcelUtils.KeyColumns | src/main/java/org/datanucleus/store/excel/ExcelUtils.java:368-403 | The key columns of an application-identity class, one per key member, in key order. |
| ExcelUtils.RowCount | src/main/java/org/datanucleus/store/excel/ExcelUtils.java:360-439 | A missing sheet counts 0. Application identity counts the rows holding all key cells, datastore identity the rows with an identity cell, nondurable identity the rows with a column-0 cell. A failure is always a null row, and it happens exactly when the sheet exists, the identity is not application identity, the sheet has physical rows and a row inside first..last is missing. |
| ExcelUtils.NoRowsNoneActive | src/main/java/org/datanucleus/store/excel/ExcelUtils.java:364-367 | A sheet with no rows counts 0. |
| ExcelUtils.AllCellsPresent | src/main/java/org/datanucleus/store/excel/ExcelUtils.java:380-395 | The flag loop over the key cells holds exactly when the row has every identifying cell. |
| ExcelUtils.CountFrom | src/main/java/org/datanucleus/store/excel/ExcelUtils.java:372-435 | The count loop over first..last returns the active rows of that slice, or the fault of a missing row it dereferences. |
| ExcelUtils.NumberOfRows | src/main/java/org/datanucleus/store/excel/ExcelUtils.java:360-439 | The method returns the count `RowCount` states. |
| JavaText.ParseInt | src/java/org/datanucleus/store/excel/ExcelUtils.java:78-90 | `Integer.valueOf`: a result exactly for an optional sign and at least one digit whose value fits in an `int`. |
| JavaText.ParseDecimal | src/java/org/datanucleus/store/excel/valuegenerator/MaxGenerator.java:55-62 | Parsing the decimal text of any `int` gives that `int` back. |
| RefText.UnbracketBracket | src/main/java/org/datanucleus/store/excel/fieldmanager/FetchFieldManager.java:422-424 | Stripping the brackets of a bracketed text gives back the text the store side bracketed. |
| RefText.ComponentsOfJoin | src/main/java/org/datanucleus/store/excel/fieldmanager/FetchFieldManager.java:425 | Splitting comma-joined tokens gives the tokens back, in order; an empty list gives `null`. |
| LegacyExcelUtils.MemberColumn | src/java/org/datanucleus/store/excel/ExcelUtils.java:65-95 | The column is the explicit position when given, else the column name parsed as an integer, else the member number. |
| LegacyExcelUtils.NamedColumnAsPosition | src/java/org/datanucleus/store/excel/ExcelUtils.java:65-95 | A column named by its number resolves to the same column as one declared with that position. |
| LegacyExcelUtils.ColumnIndexForField | src/java/org/datanucleus/store/excel/ExcelUtils.java:63-158 | A member number gives the member's column; -1 gives the identity column and -2 the version column (position, number-like name, or the default after the members); any other negative number is an error. |
| LegacyExcelUtils.IdentityPositionIgnored | src/java/org/datanucleus/store/excel/ExcelUtils.java:96-124 | As written, slot -1 returns the fallback column whatever explicit position is declared. |
| LegacyExcelUtils.VersionPositionIgnored | src/java/org/datanucleus/store/excel/ExcelUtils.java:125-153 | As written, slot -2 returns its fallback column whatever explicit position is declared. |
| LegacyExcelUtils.IdentityPositionCounterexample | src/java/org/datanucleus/store/excel/ExcelUtils.java:96-124 | A one-member class whose identity column is declared at position 0 gets column 1 from the code as written. |
| LegacyExcelUtils.CorrectionOnlyHonoursPositions | src/java/org/datanucleus/store/excel/ExcelUtils.java:96-153 | The corrected resolver differs from the code as written only for a slot that declares an explicit position. |
| LegacyExcelUtils.DefaultColumnsDistinct | src/java/org/datanucleus/store/excel/ExcelUtils.java:63-158 | Without column metadata, member i is column i, the identity column follows the members and the version column follows that, so no two slots share a column. |
| LegacyExcelUtils.FieldColumn | src/java/org/datanucleus/store/excel/ExcelUtils.java:65-95 | The column of member p is what the resolver returns for p. |
| LegacyExcelUtils.IdentityColumn | src/java/org/datanucleus/store/excel/ExcelUtils.java:96-124 | The identity column is what the resolver returns for slot -1. |
| LegacyExcelUtils.VersionColumn | src/java/org/datanucleus/store/excel/ExcelUtils.java:125-153 | The version column is what the resolver returns for slot -2. |
| LegacyExcelUtils.ColumnIndexForEmbeddedField | src/java/org/datanucleus/store/excel/ExcelUtils.java:160-199 | The embedded resolver gives the member rule over the embedded metadata; a negative number or one past the embedded metadata is an error. |
| LegacyExcelUtils.EmbeddedCriteria | src/java/org/datanucleus/store/excel/ExcelUtils.java:247-263 | One comparison per embedded member at the embedded resolver's column, or the resolver's error. |
| LegacyExcelUtils.RowNumber | src/java/org/datanucleus/store/excel/ExcelUtils.java:230-418 | -1 when the sheet is missing or no row matches, the first matching row otherwise, and an error when a column cannot be resolved. |
| LegacyExcelUtils.CollectEmbedded | src/java/org/datanucleus/store/excel/ExcelUtils.java:247-263 | The embedded loop collects the embedded criteria. |
| LegacyExcelUtils.EmbeddedFailurePersists | src/java/org/datanucleus/store/excel/ExcelUtils.java:247-263 | Once the embedded metadata runs out, every longer prefix fails the same way. |
| LegacyExcelUtils.CollectKeyCriteria | src/java/org/datanucleus/store/excel/ExcelUtils.java:233-302 | The key loop collects each key member's comparisons in key order, or the first error. |
| LegacyExcelUtils.KeyFailurePersists | src/java/org/datanucleus/store/excel/ExcelUtils.java:233-302 | Once a key member's column fails, every longer prefix of the key loop fails. |
| LegacyExcelUtils.CollectNondurableCriteria | src/java/org/datanucleus/store/excel/ExcelUtils.java:329-416 | The nondurable loop compares the non-relation and embedded members, or fails with the first error. |
| LegacyExcelUtils.NondurableFailurePersists | src/java/org/datanucleus/store/excel/ExcelUtils.java:329-416 | Once a member's column fails, every longer prefix of the nondurable loop fails. |
| LegacyExcelUtils.GetRowNumber | src/java/org/datanucleus/store/excel/ExcelUtils.java:230-418 | The method returns the outcome `RowNumber` states. |
| LegacyExcelUtils.NoRowsNoMatch | src/java/org/datanucleus/store/excel/ExcelUtils.java:230-418 | A sheet without rows matches nothing: the result is -1. |
| LegacyExcelUtils.KeyColumns | src/java/org/datanucleus/store/excel/ExcelUtils.java:505-515 | The resolved column of every key member, in key order. |
| LegacyExcelUtils.RowCount | src/java/org/datanucleus/store/excel/ExcelUtils.java:497-569 | Application identity: the number of key cells present over all rows; datastore identity: the rows with an identity cell; nondurable: the rows with a cell in column 0. A failure is always a null row, and it happens exactly when the sheet exists, the identity is not application identity, the sheet has physical rows and a row inside first..last is missing. |
| LegacyExcelUtils.PerCellCountOfKeys | src/java/org/datanucleus/store/excel/ExcelUtils.java:516-532 | For a one-field key the per-cell count equals the active rows; for any key it is at least the key-field count times the active rows. |
| LegacyExcelUtils.CountCells | src/java/org/datanucleus/store/excel/ExcelUtils.java:516-532 | The inner loop counts the row's present cells at the key columns. |
| LegacyExcelUtils.CountCellsFrom | src/java/org/datanucleus/store/excel/ExcelUtils.java:505-533 | The outer loop over first..last totals the present key cells. |
| LegacyExcelUtils.NumberOfRows | src/java/org/datanucleus/store/excel/ExcelUtils.java:497-569 | The method returns the count `RowCount` states. |
| StoreFields.EnsureCell | src/main/java/org/datanucleus/store/excel/fieldmanager/StoreFieldManager.java:130 | After `getCell(col, CREATE_NULL_AS_BLANK)` the row has a cell at col, blank when it was absent, and nothing else changes. |
| StoreFields.RemoveCell | src/main/java/org/datanucleus/store/excel/fieldmanager/StoreFieldManager.java:211-214 | After `removeCell` the row has no cell at col, and nothing else changes. |
| StoreFields.KeyCellsFrom | src/main/java/org/datanucleus/store/excel/fieldmanager/StoreFieldManager.java:87-107 | Each key column gets a cell (blank where missing, existing ones kept); an embedded key member is refused. |
| StoreFields.KeyCellsMakeRowActive | src/main/java/org/datanucleus/store/excel/fieldmanager/StoreFieldManager.java:83-116 | Once the key cells exist, the active-row test of the row count holds for the row, and no cell that was there changes. |
| StoreFields.EmbeddedKeyRefused | src/main/java/org/datanucleus/store/excel/fieldmanager/StoreFieldManager.java:95-99 | An embedded key field always makes the key-cell preparation fail. |
| StoreFields.CellForType | src/main/java/org/datanucleus/store/excel/fieldmanager/StoreFieldManager.java:576-627 | No cell exactly for a class with no branch (`Number`, `Character`, `Boolean`, `Date`, `Calendar`, `String`, enums and `byte[]` each have one); what each cell holds is stated by `FetchFields.CellRoundTrip`. |
| StoreFields.FallbackCell | src/main/java/org/datanucleus/store/excel/fieldmanager/StoreFieldManager.java:400-431 | A numeric column without a `Long` converter writes nothing, and so does any column with neither converter; what a numeric column writes is a numeric cell. |
| StoreFields.PutOrBlank | src/main/java/org/datanucleus/store/excel/fieldmanager/StoreFieldManager.java:387-399 | The column holds the written cell, or keeps or gains a blank one when nothing was written; every other column is unchanged. |
| StoreFields.StoreComponents | src/main/java/org/datanucleus/store/excel/fieldmanager/StoreFieldManager.java:361-382 | Only the mapping's columns change and no cell is removed; every column from `i` on gets a cell; with fewer components or column classes than columns the write fails. |
| StoreFields.StoreConverted | src/main/java/org/datanucleus/store/excel/fieldmanager/StoreFieldManager.java:324-385 | Only the member's columns change; a `null` value removes only the column-0 cell, for a multi-column mapping too. |
| StoreFields.IdOf | src/main/java/org/datanucleus/store/excel/fieldmanager/StoreFieldManager.java:496-501 | A related object gives its persisted identity and `null` gives the text `null`; any other value cannot be persisted. |
| StoreFields.Ids | src/main/java/org/datanucleus/store/excel/fieldmanager/StoreFieldManager.java:494-509 | The identity strings of the elements, one per element and in iteration order, `null` for a `null` element; fails exactly when some element is neither. |
| StoreFields.EntryText | src/main/java/org/datanucleus/store/excel/fieldmanager/StoreFieldManager.java:522-548 | Fails exactly when a persistable key or value is neither a reference nor `null`. |
| StoreFields.EntryTexts | src/main/java/org/datanucleus/store/excel/fieldmanager/StoreFieldManager.java:516-552 | One pair of texts per entry, in order, or the fault of the first entry that has none. |
| StoreFields.ContainerText | src/main/java/org/datanucleus/store/excel/fieldmanager/StoreFieldManager.java:462-570 | No text for a member that is no collection, map or array, and any text written is bracketed; the texts' contents are stated by `BuildElementsText`, `BuildMapText` and the round trips in `FetchFields`. |
| StoreFields.StoreReferenceAsWritten | src/main/java/org/datanucleus/store/excel/fieldmanager/StoreFieldManager.java:433-460 | As written: with cascade-persist off, the reachability check refuses the value before the `null` test is reached; only the member's columns change. |
| StoreFields.StoreReference | src/main/java/org/datanucleus/store/excel/fieldmanager/StoreFieldManager.java:433-460 | `null` removes the cell, a reference writes `[id]`, and without cascade-persist a target neither persistent nor detached is refused. |
| StoreFields.NullReferenceRefusedAsWritten | src/main/java/org/datanucleus/store/excel/fieldmanager/StoreFieldManager.java:435-445 | As written, a `null` reference with cascade-persist off is refused rather than removing the cell. |
| StoreFields.ReferenceCorrectionOnlyNull | src/main/java/org/datanucleus/store/excel/fieldmanager/StoreFieldManager.java:433-460 | The corrected and the as-written reference store agree on every non-null value. |
| StoreFields.StoreInternal | src/main/java/org/datanucleus/store/excel/fieldmanager/StoreFieldManager.java:295-575 | Only the member's columns change, and a `null` value removes the column-0 cell of every member that is not converted. |
| StoreFields.StoreObject | src/main/java/org/datanucleus/store/excel/fieldmanager/StoreFieldManager.java:222-293 | Only the member's columns change; a non-storable field leaves the row as it was; an embedded multi-valued relation is refused. |
| StoreFields.NullRemovesCell | src/main/java/org/datanucleus/store/excel/fieldmanager/StoreFieldManager.java:387-392 | A `null` value of a stored, non-embedded member without converter leaves no cell at its column. |
| StoreFields.StoreCell | src/main/java/org/datanucleus/store/excel/fieldmanager/StoreFieldManager.java:124-202 | A storable primitive field's cell, created when absent, is set to the value; a non-storable field changes nothing. |
| StoreFields.StoreString | src/main/java/org/datanucleus/store/excel/fieldmanager/StoreFieldManager.java:204-220 | A `null` string removes the cell; any other string is written as text. |
| StoreFields.BuildElementsText | src/main/java/org/datanucleus/store/excel/fieldmanager/StoreFieldManager.java:494-509 | The builder loop produces `[`, the identities joined by `,`, then `]`. |
| StoreFields.BuildMapText | src/main/java/org/datanucleus/store/excel/fieldmanager/StoreFieldManager.java:516-552 | The builder loop produces `[`, the entries' `[k],[v]` joined by `,`, then `]`. |
| StoreFields.EntryStrings | src/main/java/org/datanucleus/store/excel/fieldmanager/StoreFieldManager.java:522-548 | One pass of the map loop gives the key and value texts of its entry. |
| StoreFields.StoreFieldManager.CreateKeyCells | src/main/java/org/datanucleus/store/excel/fieldmanager/StoreFieldManager.java:83-116 | The row gets a cell at every key column, or at the datastore identity column; an embedded key is refused. |
| StoreFields.StoreFieldManager.BuildKeyCells | src/main/java/org/datanucleus/store/excel/fieldmanager/StoreFieldManager.java:87-107 | The loop over the key members gives exactly the key cells `KeyCellsFrom` describes: every non-embedded key member's cell created, or the refusal of the first embedded one. |
| StoreFields.StoreFieldManager.StoreBooleanField | src/main/java/org/datanucleus/store/excel/fieldmanager/StoreFieldManager.java:124-132 | A storable field's cell becomes the boolean; the row is otherwise unchanged. |
| StoreFields.StoreFieldManager.StoreCharField | src/main/java/org/datanucleus/store/excel/fieldmanager/StoreFieldManager.java:144-152 | A storable field's cell becomes numeric, holding the character's code unit. |
| StoreFields.StoreFieldManager.StoreNumberField | src/main/java/org/datanucleus/store/excel/fieldmanager/StoreFieldManager.java:134-202 | A storable field's cell holds the number. |
| StoreFields.StoreFieldManager.StoreStringField | src/main/java/org/datanucleus/store/excel/fieldmanager/StoreFieldManager.java:204-220 | The row becomes what `StoreString` states. |
| StoreFields.StoreFieldManager.StoreObjectField | src/main/java/org/datanucleus/store/excel/fieldmanager/StoreFieldManager.java:222-575 | The row becomes what `StoreObject` states, or the fault is returned and the row is unchanged. |
| StoreFields.StoreFieldManager.WriteInternal | src/main/java/org/datanucleus/store/excel/fieldmanager/StoreFieldManager.java:295-575 | `storeObjectFieldInternal` gives exactly the row or exception of `StoreInternal`: a converter's output, a removed cell for null, a reference, a container text or the type-directed cell. |
| FetchFields.FetchBoolean | src/main/java/org/datanucleus/store/excel/fieldmanager/FetchFieldManager.java:93-101 | `false` for an absent cell, else the cell's boolean. |
| FetchFields.Narrow | src/main/java/org/datanucleus/store/excel/fieldmanager/FetchFieldManager.java:103-176 | The cast result lies in the range of `int`, `long`, `short` or `byte` for a field of that class. |
| FetchFields.NarrowInRange | src/main/java/org/datanucleus/store/excel/fieldmanager/FetchFieldManager.java:103-176 | A number the field's class can hold is unchanged by the cast. |
| FetchFields.FetchNumber | src/main/java/org/datanucleus/store/excel/fieldmanager/FetchFieldManager.java:103-176 | 0 for an absent cell, else the cell's number cast to the field's class. |
| FetchFields.FetchChar | src/main/java/org/datanucleus/store/excel/fieldmanager/FetchFieldManager.java:113-126 | 0 for an absent cell; the number cast to `char` for a numeric cell; otherwise the text's first character, with an empty text an index fault. |
| FetchFields.FetchString | src/main/java/org/datanucleus/store/excel/fieldmanager/FetchFieldManager.java:178-186 | `null` for an absent cell, else the cell's text. |
| FetchFields.ConvertedRead | src/main/java/org/datanucleus/store/excel/fieldmanager/FetchFieldManager.java:805-825 | A blank, boolean or date cell, or an empty text, reads as `null`. |
| FetchFields.ValueOfType | src/main/java/org/datanucleus/store/excel/fieldmanager/FetchFieldManager.java:691-825 | `String` reads the text exactly when the cell has one; each number class reads the number cast to that class; a blank date or calendar cell is `null`. |
| FetchFields.DatastoreRead | src/main/java/org/datanucleus/store/excel/fieldmanager/FetchFieldManager.java:244-270 | A whitespace text read as `String` gives `null`, and so does a datastore class other than `String`, a number, `Boolean` and `Date`. |
| FetchFields.ReadComponents | src/main/java/org/datanucleus/store/excel/fieldmanager/FetchFieldManager.java:309-335 | One component per column, `null` where the cell is absent; with every cell absent the read succeeds. |
| FetchFields.ReadComponentsLoop | src/main/java/org/datanucleus/store/excel/fieldmanager/FetchFieldManager.java:309-335 | The loop fills one array slot per column in column order, and reports whether every cell was absent. |
| FetchFields.FetchConverted | src/main/java/org/datanucleus/store/excel/fieldmanager/FetchFieldManager.java:234-348 | One column: an absent cell is `null`. Several columns: with every component cell absent the value is `null`. |
| FetchFields.ResolveAll | src/main/java/org/datanucleus/store/excel/fieldmanager/FetchFieldManager.java:439-466 | Each identity resolved in order, those resolving to nothing dropped, with a flag saying whether any was dropped. |
| FetchFields.KeptAreResolved | src/main/java/org/datanucleus/store/excel/fieldmanager/FetchFieldManager.java:439-466 | Every object kept is one that an identity resolved to. |
| FetchFields.DecodeElements | src/main/java/org/datanucleus/store/excel/fieldmanager/FetchFieldManager.java:439-466 | The collection loop adds exactly what `ResolveAll` keeps, in order, and flags a drop. |
| FetchFields.DecodeArray | src/main/java/org/datanucleus/store/excel/fieldmanager/FetchFieldManager.java:626-684 | The array is filled from slot 0 with the objects that resolve, then shrunk to the number filled when any did not. |
| FetchFields.Strip | src/main/java/org/datanucleus/store/excel/fieldmanager/FetchFieldManager.java:513-520 | `substring(1, length-1)`: the inner text when there are at least two characters, else an index fault. |
| FetchFields.EnumConstant | src/main/java/org/datanucleus/store/excel/fieldmanager/FetchFieldManager.java:550-553 | A constant exactly when the name is one, and it carries that name and its ordinal. |
| FetchFields.DecodeSlot | src/main/java/org/datanucleus/store/excel/fieldmanager/FetchFieldManager.java:523-605 | A persistable class resolves the identity, marked dangling exactly when it resolves to nothing; `String` takes the text; any other non-persistable class except an enum is refused. |
| FetchFields.PutEntry | src/main/java/org/datanucleus/store/excel/fieldmanager/FetchFieldManager.java:608-611 | A new key is appended; an existing key keeps the map's size. |
| FetchFields.DecodeEntries | src/main/java/org/datanucleus/store/excel/fieldmanager/FetchFieldManager.java:510-611 | Never more entries than pairs; a drop, once flagged, stays flagged; an odd component count fails. |
| FetchFields.DecodeMap | src/main/java/org/datanucleus/store/excel/fieldmanager/FetchFieldManager.java:510-611 | The map loop gives the entries `DecodeEntries` states. |
| FetchFields.DecodeContainer | src/main/java/org/datanucleus/store/excel/fieldmanager/FetchFieldManager.java:422-686 | Refused for a member that is no collection, map or array; the round-trip lemmas state what each kind decodes to. |
| FetchFields.FetchInternal | src/main/java/org/datanucleus/store/excel/fieldmanager/FetchFieldManager.java:218-688 | An absent column-0 cell reads as `null`, except for a multi-column converter; only a multi-valued member can mark the field dirty. |
| FetchFields.FetchObject | src/main/java/org/datanucleus/store/excel/fieldmanager/FetchFieldManager.java:188-216 | An embedded relation is refused here (the single-valued one belongs to the embedded field manager). |
| FetchFields.CellRoundTrip | src/main/java/org/datanucleus/store/excel/fieldmanager/FetchFieldManager.java:691-825 | Reading a cell as class t gives back the value that writing it as class t stored. |
| FetchFields.PlainFieldRoundTrip | src/main/java/org/datanucleus/store/excel/fieldmanager/FetchFieldManager.java:349-361 | A stored member of a plain class without converter reads back as the value stored, `null` included. |
| FetchFields.ReferenceRoundTrip | src/main/java/org/datanucleus/store/excel/fieldmanager/FetchFieldManager.java:363-405 | A single reference reads back as the stored object when its identity resolves to it, and as `null` when it resolves to nothing. |
| FetchFields.ElementsTextDecodes | src/main/java/org/datanucleus/store/excel/fieldmanager/FetchFieldManager.java:422-440 | The stored text of a collection or array of identities splits back into those identities. |
| FetchFields.ElementsContainerDecodes | src/main/java/org/datanucleus/store/excel/fieldmanager/FetchFieldManager.java:422-686 | The text of resolvable references decodes back to them, as a collection or an array. |
| FetchFields.CollectionRoundTrip | src/main/java/org/datanucleus/store/excel/fieldmanager/FetchFieldManager.java:426-489 | A collection of references whose identities resolve back reads back with the same elements in the same order, and no field is marked dirty. |
| FetchFields.ArrayRoundTrip | src/main/java/org/datanucleus/store/excel/fieldmanager/FetchFieldManager.java:624-684 | An array of resolvable references reads back likewise. |
| FetchFields.DecodeArrayAsWritten | src/main/java/org/datanucleus/store/excel/fieldmanager/FetchFieldManager.java:624-631 | As written, the array branch gives an array only for the empty text, and then the empty one. |
| FetchFields.StoredArrayRefusedAsWritten | src/main/java/org/datanucleus/store/excel/fieldmanager/FetchFieldManager.java:624-631 | For every stored array holding an element, the as-written branch fails on the missing collection metadata while the corrected decoder gives the array back. |
| FetchFields.StoredContainer | src/main/java/org/datanucleus/store/excel/fieldmanager/FetchFieldManager.java:407-422 | Storing a multi-valued member writes its text into the column-0 cell, and reading that cell back decodes the text. |
| FetchFields.DanglingDropped | src/main/java/org/datanucleus/store/excel/fieldmanager/FetchFieldManager.java:439-488 | What is kept, and that the field is marked dirty exactly when some element was dropped. |
| FetchFields.DroppedShortens | src/main/java/org/datanucleus/store/excel/fieldmanager/FetchFieldManager.java:663-673 | A dropped element makes the decoded array shorter than the identity list. |
| FetchFields.MapRoundTrip | src/main/java/org/datanucleus/store/excel/fieldmanager/FetchFieldManager.java:491-622 | A map with distinct keys whose keys and values read back from their texts reads back as the same entries, with no field marked dirty. |
| FetchFields.EntryPartsDecode | src/main/java/org/datanucleus/store/excel/fieldmanager/FetchFieldManager.java:510-611 | The joined parts of entry texts that read back decode to the entries themselves. |
| FetchFields.PrimitiveRoundTrips | src/main/java/org/datanucleus/store/excel/fieldmanager/FetchFieldManager.java:93-186 | A stored primitive reads back: a number its class holds, a boolean, a `char` code unit, a string, or `null`. |
| LegacyStoreFields.TableKeyColumns | src/java/org/datanucleus/store/excel/fieldmanager/StoreFieldManager.java:81-92 | The key fields' columns, one per key field, in key order. |
| LegacyStoreFields.EnsureCells | src/java/org/datanucleus/store/excel/fieldmanager/StoreFieldManager.java:84-92 | Each of the first n columns has a cell, existing ones unchanged. |
| LegacyStoreFields.TableKeyCells | src/java/org/datanucleus/store/excel/fieldmanager/StoreFieldManager.java:77-101 | A non-embedded object gets a cell at each key column, or at the datastore identity column; an embedded or nondurable object's row is unchanged; existing cells are kept; an embedded key is not refused. |
| LegacyStoreFields.ConvertedCell | src/java/org/datanucleus/store/excel/fieldmanager/StoreFieldManager.java:335-361 | A datastore class other than `String`, a number, `Boolean` and `Date` writes nothing; a number class other than `Double` fails with a class cast, since the value is cast to `Double`; a `Double` or `String` value becomes the number or text cell. |
| LegacyStoreFields.CellFor | src/java/org/datanucleus/store/excel/fieldmanager/StoreFieldManager.java:368-438 | An enum value is its ordinal in a numeric column and its name otherwise; a `String` member goes to the converter fallback. |
| LegacyStoreFields.CellForAgreesWithCurrent | src/java/org/datanucleus/store/excel/fieldmanager/StoreFieldManager.java:368-438 | For every other class both trees write the same cell for a non-null value, and they always write one. |
| LegacyStoreFields.ContainerTextUnchecked | src/java/org/datanucleus/store/excel/fieldmanager/StoreFieldManager.java:449-532 | No text for a member that is no container; a collection's text is the same as the current tree's, and with cascade-persist on the whole result is the current tree's. |
| LegacyStoreFields.StoreInCell | src/java/org/datanucleus/store/excel/fieldmanager/StoreFieldManager.java:313-533 | Several columns are refused; a `null` value removes the cell; a single reference writes `[id]`; only the member's column changes. |
| LegacyStoreFields.StoreFieldValue | src/java/org/datanucleus/store/excel/fieldmanager/StoreFieldManager.java:253-311 | Only the member's columns change, and a non-storable field leaves the row as it was. |
| LegacyStoreFields.NoReachabilityCheck | src/java/org/datanucleus/store/excel/fieldmanager/StoreFieldManager.java:441-448 | The older tree writes `[id]` for a reference the current tree refuses, and removes the cell for a `null` reference with cascade-persist off. |
| LegacyStoreFields.NullAlwaysRemoves | src/java/org/datanucleus/store/excel/fieldmanager/StoreFieldManager.java:323-327 | Every `null` object value removes the cell, for a converter's value and a container too. |
| LegacyStoreFields.LegacyStoreFieldManager.StoreBooleanField | src/java/org/datanucleus/store/excel/fieldmanager/StoreFieldManager.java:110-123 | A storable field's cell, created when absent, holds the boolean. |
| LegacyStoreFields.LegacyStoreFieldManager.StoreCharField | src/java/org/datanucleus/store/excel/fieldmanager/StoreFieldManager.java:140-153 | A storable field's cell holds the character's code unit as a number. |
| LegacyStoreFields.LegacyStoreFieldManager.StoreNumberField | src/java/org/datanucleus/store/excel/fieldmanager/StoreFieldManager.java:125-228 | A storable field's cell holds the number, `long` included. |
| LegacyStoreFields.LegacyStoreFieldManager.StoreStringField | src/java/org/datanucleus/store/excel/fieldmanager/StoreFieldManager.java:230-251 | The cell is created, then removed again for `null` or set to the text. |
| LegacyStoreFields.LegacyStoreFieldManager.StoreObjectField | src/java/org/datanucleus/store/excel/fieldmanager/StoreFieldManager.java:253-533 | The row becomes what `StoreFieldValue` states, or the fault is returned and the row is unchanged. |
| LegacyStoreFields.LegacyStoreFieldManager.WriteInCell | src/java/org/datanucleus/store/excel/fieldmanager/StoreFieldManager.java:313-533 | `storeObjectFieldInCell` gives exactly the row or exception of `StoreInCell`, including the refusal of a member mapped to several columns. |
| LegacyFetchFields.FetchBoolean | src/java/org/datanucleus/store/excel/fieldmanager/FetchFieldManager.java:87-97 | For a column `>= 0` the same read as the current tree; `false` for an absent cell. |
| LegacyFetchFields.FetchNumber | src/java/org/datanucleus/store/excel/fieldmanager/FetchFieldManager.java:99-181 | For a column `>= 0` the same read as the current tree; 0 for an absent cell. |
| LegacyFetchFields.FetchString | src/java/org/datanucleus/store/excel/fieldmanager/FetchFieldManager.java:183-193 | For a column `>= 0` the same read as the current tree; `null` for an absent cell. |
| LegacyFetchFields.FetchCharAsWritten | src/java/org/datanucleus/store/excel/fieldmanager/FetchFieldManager.java:111-121 | As written: 0 for an absent cell, and a numeric cell, having no text, is a fault. |
| LegacyFetchFields.FetchChar | src/java/org/datanucleus/store/excel/fieldmanager/FetchFieldManager.java:111-121 | Corrected: 0 for an absent cell, and a numeric cell gives its number cast to `char`. |
| LegacyFetchFields.StoredCharRefused | src/java/org/datanucleus/store/excel/fieldmanager/FetchFieldManager.java:111-121 | A `char` the older store side writes fails to read back as written, and the corrected read gives it back. |
| LegacyFetchFields.ParseBigInteger | src/java/org/datanucleus/store/excel/fieldmanager/FetchFieldManager.java:345-347 | The empty text is refused; `ParseBigIntegerDecimal` and `PointRefused` state what it accepts. |
| LegacyFetchFields.ParseBigIntegerDecimal | src/main/java/org/datanucleus/store/excel/fieldmanager/FetchFieldManager.java:791-795 | The text of a `long`, as the current tree builds it, parses back to the `long`. |
| LegacyFetchFields.PointRefused | src/java/org/datanucleus/store/excel/fieldmanager/FetchFieldManager.java:345-347 | No text containing a decimal point parses as a `BigInteger`. |
| LegacyFetchFields.DoubleText | src/java/org/datanucleus/store/excel/fieldmanager/FetchFieldManager.java:345-347 | `"" + val` for a `double` holding an integer always contains a decimal point. |
| LegacyFetchFields.UseLongExamples | src/java/org/datanucleus/store/excel/fieldmanager/FetchFieldManager.java:384-397 | `useLong` holds for one column of JDBC type `int`/`INTEGER` (any case), and not for other types or several columns. |
| LegacyFetchFields.BuiltInRead | src/java/org/datanucleus/store/excel/fieldmanager/FetchFieldManager.java:384-432 | With neither applicable converter the value is `null`; with `useLong` the `Long` converter gets the number; without it a `String` converter on a numeric cell is a fault, and on a blank cell gives `null`. |
| LegacyFetchFields.ConverterInput | src/java/org/datanucleus/store/excel/fieldmanager/FetchFieldManager.java:231-258 | A `String` datastore class gets the cell's text exactly when it has one, whitespace included; any other class is read as the current tree reads it. |
| LegacyFetchFields.WhitespaceReachesConverter | src/java/org/datanucleus/store/excel/fieldmanager/FetchFieldManager.java:237-240 | A blank or whitespace text reaches the older tree's converter, where the current tree gives `null`. |
| LegacyFetchFields.ClassValue | src/java/org/datanucleus/store/excel/fieldmanager/FetchFieldManager.java:260-432 | A numeric enum column succeeds exactly for an ordinal in range; an empty text is a `null` enum; `String` and unknown classes go to `BuiltInRead`. |
| LegacyFetchFields.BigIntegerRefused | src/java/org/datanucleus/store/excel/fieldmanager/FetchFieldManager.java:345-347 | A `BigInteger` member is never read back as written; parsing the `long` text instead gives the number. |
| LegacyFetchFields.ResolveEach | src/java/org/datanucleus/store/excel/fieldmanager/FetchFieldManager.java:491-511 | Every identity resolved in order; the first one that resolves to nothing is a not-found fault. |
| LegacyFetchFields.ResolveEachAgrees | src/java/org/datanucleus/store/excel/fieldmanager/FetchFieldManager.java:491-511 | The older tree fails exactly where the current one drops an element; otherwise both read the same elements. |
| LegacyFetchFields.DecodeCollection | src/java/org/datanucleus/store/excel/fieldmanager/FetchFieldManager.java:478-516 | The collection loop gives exactly what `ResolveEach` states. |
| LegacyFetchFields.ResolveStopsAt | src/java/org/datanucleus/store/excel/fieldmanager/FetchFieldManager.java:491-511 | A prefix that fails makes the whole sequence fail. |
| LegacyFetchFields.DecodeArray | src/java/org/datanucleus/store/excel/fieldmanager/FetchFieldManager.java:623-656 | One slot per identity, each holding the resolved object; no identities give an empty array. |
| LegacyFetchFields.MapSlot | src/java/org/datanucleus/store/excel/fieldmanager/FetchFieldManager.java:545-612 | A persistable key or value is resolved (not found being a fault), otherwise an enum constant or a `String`, and other classes are refused. |
| LegacyFetchFields.DecodePairs | src/java/org/datanucleus/store/excel/fieldmanager/FetchFieldManager.java:534-614 | Never more entries than pairs, and an odd component count fails. |
| LegacyFetchFields.DecodeMap | src/java/org/datanucleus/store/excel/fieldmanager/FetchFieldManager.java:534-614 | The map loop, with its extra `i++`, gives the entries `DecodePairs` states. |
| LegacyFetchFields.DecodePairsAgree | src/java/org/datanucleus/store/excel/fieldmanager/FetchFieldManager.java:534-614 | Where the current tree reads every entry without dropping any, the corrected older loop reads the same entries. |
| LegacyFetchFields.ContainerValue | src/java/org/datanucleus/store/excel/fieldmanager/FetchFieldManager.java:465-660 | Refused for a member that is no container; a collection with no components is empty; as written, an array with a component fails on the missing collection metadata. |
| LegacyFetchFields.FromCell | src/java/org/datanucleus/store/excel/fieldmanager/FetchFieldManager.java:219-660 | `null` for an absent cell whatever the member; a bracketed single reference resolves or is not found; an unbracketed container text is refused. |
| LegacyFetchFields.FetchObject | src/java/org/datanucleus/store/excel/fieldmanager/FetchFieldManager.java:195-216 | `null` when the resolver's column for the field has no cell. |
| LegacyFetchFields.EnumConstantFirst | src/java/org/datanucleus/store/excel/fieldmanager/FetchFieldManager.java:362-371 | The first constant of a name is found at its ordinal. |
| LegacyFetchFields.PlainFieldRoundTrip | src/java/org/datanucleus/store/excel/fieldmanager/FetchFieldManager.java:224-432 | A plain member without converter reads back as what the older store side wrote, `null` included. |
| LegacyFetchFields.ElementsDecode | src/java/org/datanucleus/store/excel/fieldmanager/FetchFieldManager.java:491-511 | The text of resolvable references read by the older loop gives them back. |
| LegacyFetchFields.ElementsRoundTrip | src/java/org/datanucleus/store/excel/fieldmanager/FetchFieldManager.java:474-656 | A collection or array of resolvable references reads back as the same elements in the same order. |
| LegacyFetchFields.StoredArrayRefusedAsWritten | src/java/org/datanucleus/store/excel/fieldmanager/FetchFieldManager.java:623-656 | For every stored array holding an element, the as-written decode fails on the missing collection metadata while the corrected decode gives the array back. |
| LegacyFetchFields.MapRoundTrip | src/java/org/datanucleus/store/excel/fieldmanager/FetchFieldManager.java:518-621 | A map with distinct keys whose keys and values read back reads back, with the corrected loop, as the same entries. |
| LegacyFetchFields.StoredContainer | src/java/org/datanucleus/store/excel/fieldmanager/FetchFieldManager.java:465-476 | A multi-valued member stored as a text reads back as that text decoded. |
| LegacyFetchFields.MapPartsDecode | src/java/org/datanucleus/store/excel/fieldmanager/FetchFieldManager.java:534-614 | The joined parts of entry texts decode, with the corrected loop, to the entries. |
| LegacyFetchFields.MapKeyFromRawComponent | src/java/org/datanucleus/store/excel/fieldmanager/FetchFieldManager.java:545-592 | As written, a persistable key is resolved from the bracketed value component, so the first entry of any such map is not found. |
| Bookkeeping.Workbook.constructor | src/main/java/org/datanucleus/store/excel/ExcelPersistenceHandler.java:131-141 | The workbook starts with the given sheets. |
| Bookkeeping.RowOrNew | src/main/java/org/datanucleus/store/excel/ExcelPersistenceHandler.java:149-154 | The existing row at i, or the empty row. |
| Bookkeeping.PutRow | src/main/java/org/datanucleus/store/excel/ExcelPersistenceHandler.java:149-156 | Row i holds the new row, every other row is unchanged, and the sheet grows with null rows past its end. |
| Bookkeeping.ShiftUp | src/main/java/org/datanucleus/store/excel/ExcelPersistenceHandler.java:462-465 | The sheet keeps its length; `RemoveRowShiftsUp` states where each row goes. |
| Bookkeeping.RemoveRowShiftsUp | src/main/java/org/datanucleus/store/excel/ExcelPersistenceHandler.java:458-466 | Removing row i then shifting gives the rows before i, the rows after i one place up, and a null row at the end. |
| Bookkeeping.ClearRowKeepsRows | src/main/java/org/datanucleus/store/excel/ExcelPersistenceHandler.java:447-457 | Clearing a row leaves it present and empty, with the sheet's length, last row index and physical row count unchanged. |
| Bookkeeping.SamePresenceSameBounds | src/main/java/org/datanucleus/store/excel/ExcelPersistenceHandler.java:447-466 | Two sheets with rows at the same indices have the same bounds and the same physical count. |
| Bookkeeping.PrefixActiveCount | src/main/java/org/datanucleus/store/excel/ExcelPersistenceHandler.java:142-146 | In a sheet whose active rows come first, the active-row count is the length of that prefix. |
| Bookkeeping.InsertAtCountKeepsPrefix | src/main/java/org/datanucleus/store/excel/ExcelPersistenceHandler.java:142-156 | Writing an active row at the active-row count keeps the sheet compact, with one more active row. |
| Bookkeeping.RemoveKeepsPrefix | src/main/java/org/datanucleus/store/excel/ExcelPersistenceHandler.java:458-466 | Removing an active row of a compact sheet keeps it compact with one active row fewer. |
| Bookkeeping.ClearLastKeepsPrefix | src/main/java/org/datanucleus/store/excel/ExcelPersistenceHandler.java:447-457 | Clearing the active last row of a compact sheet keeps it compact with one active row fewer. |
| Bookkeeping.FoundAfterPut | src/main/java/org/datanucleus/store/excel/ExcelPersistenceHandler.java:149-156 | After a matching row is written at i, a search that found nothing before finds i. |
| Bookkeeping.LostAfterDelete | src/main/java/org/datanucleus/store/excel/ExcelPersistenceHandler.java:447-466 | A search whose only match was row i finds nothing once row i is removed or cleared, when its criterion needs a cell. |
| Bookkeeping.IdCell | src/main/java/org/datanucleus/store/excel/ExcelPersistenceHandler.java:178-185 | A `String` key is a text cell and a `Long` key a numeric cell; any other key fails the cast. |
| Bookkeeping.IdCellMatches | src/main/java/org/datanucleus/store/excel/ExcelUtils.java:176-197 | The identity cell written for a key is matched by the datastore-identity search for that key. |
| Bookkeeping.VersionCell | src/main/java/org/datanucleus/store/excel/ExcelPersistenceHandler.java:215-234 | A `Long` version is a numeric cell, a `Timestamp` a date cell, anything else writes nothing. |
| Bookkeeping.CreateAndSet | src/main/java/org/datanucleus/store/excel/ExcelPersistenceHandler.java:192-234 | The cell exists afterwards, set to the value when there is one; a negative column is refused. |
| Bookkeeping.SetExisting | src/main/java/org/datanucleus/store/excel/ExcelPersistenceHandler.java:360-380 | An existing cell is set to the value; a missing one is a fault when there is a value to write. |
| Bookkeeping.VersionRead | src/main/java/org/datanucleus/store/excel/ExcelPersistenceHandler.java:564-573 | A version number reads `(long)` of the number, a date-time version the date, another strategy nothing; a missing cell is a fault. |
| Bookkeeping.VersionRoundTrip | src/main/java/org/datanucleus/store/excel/ExcelPersistenceHandler.java:213-234 | A version written into its cell is the version the fetch reads back. |
| Bookkeeping.WithVersionField | src/main/java/org/datanucleus/store/excel/ExcelPersistenceHandler.java:307-321 | The field list is unchanged when it holds the version field, otherwise the version field is appended once. |
| Bookkeeping.AppendVersionField | src/main/java/org/datanucleus/store/excel/ExcelPersistenceHandler.java:307-321 | The flag loop and the copy give `WithVersionField`. |
| Bookkeeping.WithField | src/main/java/org/datanucleus/store/excel/ExcelPersistenceHandler.java:305 | Only field p changes, to the given value. |
| Bookkeeping.VersionedUpdate | src/main/java/org/datanucleus/store/excel/ExcelPersistenceHandler.java:278-323 | A version field gets the next version (narrowed to `int` for an `int` field) and joins the stored fields; the version cell gets the next version. |
| Bookkeeping.RemoveAllCells | src/main/java/org/datanucleus/store/excel/ExcelPersistenceHandler.java:451-456 | Every cell of the row is removed. |
| Candidates.ExtentOf | src/main/java/org/datanucleus/store/excel/query/ExcelCandidateList.java:96-113 | The identifying column: the first key field's column, the datastore identity column, or column 0. |
| Candidates.InstanceCount | src/main/java/org/datanucleus/store/excel/query/ExcelCandidateList.java:96-124 | 0 without a sheet or rows, else the rows with an identifying cell; a missing row in first..last is a fault. |
| Candidates.InstanceCounts | src/main/java/org/datanucleus/store/excel/query/ExcelCandidateList.java:82-124 | The counts in class order, or the first failure. |
| Candidates.CountFailureStays | src/main/java/org/datanucleus/store/excel/query/ExcelCandidateList.java:82-124 | Once one class's count fails, the whole count fails with it. |
| Candidates.CountInstances | src/main/java/org/datanucleus/store/excel/query/ExcelCandidateList.java:70-124 | The constructor's loop returns `InstanceCounts`. |
| Candidates.GetSize | src/main/java/org/datanucleus/store/excel/query/ExcelCandidateList.java:131-142 | The size is the sum of the counts. |
| Candidates.TotalMonotone | src/main/java/org/datanucleus/store/excel/query/ExcelCandidateList.java:131-142 | The running totals only grow. |
| Candidates.SizeCountsInstances | src/main/java/org/datanucleus/store/excel/query/ExcelCandidateList.java:96-142 | The size is the number of rows with an identifying cell over every class's sheet. |
| Candidates.IdCellReadsBack | src/main/java/org/datanucleus/store/excel/query/ExcelCandidateList.java:226-237 | The identity read from a row is the key insert wrote into its identity cell: a `String` as its text, a `long` as its number. |
| Candidates.Retrieve | src/main/java/org/datanucleus/store/excel/query/ExcelCandidateList.java:147-291 | An index outside 0..size-1 is refused; `RetrieveSelects` states what every other index gives. |
| Candidates.ScanSheet | src/main/java/org/datanucleus/store/excel/query/ExcelCandidateList.java:190-287 | The row loop in one sheet returns what `ScanRows` states. |
| Candidates.RetrieveObjectForIndex | src/main/java/org/datanucleus/store/excel/query/ExcelCandidateList.java:147-291 | The method returns what `Retrieve` states. |
| Candidates.ScanFinds | src/main/java/org/datanucleus/store/excel/query/ExcelCandidateList.java:190-287 | The row loop finds the row with the required number of active rows before it. |
| Candidates.CountWithinBounds | src/main/java/org/datanucleus/store/excel/query/ExcelCandidateList.java:115 | No instance lies before a sheet's first row or after its last. |
| Candidates.InExtentFinds | src/main/java/org/datanucleus/store/excel/query/ExcelCandidateList.java:156-197 | The search in one class's sheet finds the row the index denotes within that class. |
| Candidates.WalkHere | src/main/java/org/datanucleus/store/excel/query/ExcelCandidateList.java:156-197 | The class whose range holds the index is where the class loop stops, and its row is the selected one. |
| Candidates.WalkSkips | src/main/java/org/datanucleus/store/excel/query/ExcelCandidateList.java:156-197 | A class whose range does not hold the index only moves the start of the next range. |
| Candidates.WalkSelects | src/main/java/org/datanucleus/store/excel/query/ExcelCandidateList.java:156-197 | The class loop reaches the class whose range holds the index and returns its row. |
| Candidates.RetrieveSelects | src/main/java/org/datanucleus/store/excel/query/ExcelCandidateList.java:147-291 | Every index within the size selects the row of the class whose range holds it, the (i - first)-th active row. |
| Candidates.SelectedInjective | src/main/java/org/datanucleus/store/excel/query/ExcelCandidateList.java:156-197 | Different indices select different rows. |
| Candidates.RangesDisjoint | src/main/java/org/datanucleus/store/excel/query/ExcelCandidateList.java:156-197 | The ranges of different classes do not overlap. |
| Candidates.InstanceCountAgreesWithRowCount | src/main/java/org/datanucleus/store/excel/ExcelUtils.java:360-439 | The list's count equals the handler's row count for datastore and nondurable identity, and for a one-field key. |
| LegacyCandidates.ExtentOf | src/java/org/datanucleus/store/excel/query/ExcelCandidateList.java:81-98 | The identifying column: the first key field's resolved column, slot -1, or column 0. |
| LegacyCandidates.InstanceCountAgreesWithRowCount | src/java/org/datanucleus/store/excel/ExcelUtils.java:497-569 | The list's count equals the old handler's count for datastore and nondurable identity and for a one-field key; for a composite key the handler's count is the columns times the list's count when every present row has all key cells. |
| Increment.NewGenerator | src/java/org/datanucleus/store/excel/valuegenerator/IncrementGenerator.java:62-79 | The key defaults to the generator name, the sheet to "IncrementTable", the allocation size to 1; an unparsable "key-cache-size" is a fault. |
| Increment.Block | src/java/org/datanucleus/store/excel/valuegenerator/IncrementGenerator.java:149-155 | The block holds current+1 .. current+size in increasing order. |
| Increment.Reserve | src/java/org/datanucleus/store/excel/valuegenerator/IncrementGenerator.java:89-161 | A size below 1 returns `null` and changes nothing; a missing sheet fails exactly without auto-create; every fault is that, or a missing or non-text cell; a success hands out size values. |
| Increment.FindFrom | src/java/org/datanucleus/store/excel/valuegenerator/IncrementGenerator.java:122-135 | Any fault is a missing cell or a non-text cell; a row found is at or after i, present, with column-0 text equal to the key. |
| Increment.ReserveWritesOnlyItsSheet | src/java/org/datanucleus/store/excel/valuegenerator/IncrementGenerator.java:89-161 | A reservation writes only the generator's sheet. |
| Increment.FoundRowStays | src/java/org/datanucleus/store/excel/valuegenerator/IncrementGenerator.java:149-155 | Changing a found row outside column 0 keeps the search finding it. |
| Increment.AppendedRowFound | src/java/org/datanucleus/store/excel/valuegenerator/IncrementGenerator.java:136-144 | When nothing is found, the appended (key, 0) row is found afterwards. |
| Increment.ReserveAdvancesCounter | src/java/org/datanucleus/store/excel/valuegenerator/IncrementGenerator.java:91-155 | A size below 1 gives `null` and changes nothing; otherwise the block after the counter, and the counter moves on by size. |
| Increment.ConsecutiveReservations | src/java/org/datanucleus/store/excel/valuegenerator/IncrementGenerator.java:149-155 | Two reservations in a row hand out one contiguous block, so no value is handed out twice. |
| Increment.FindCounterRow | src/java/org/datanucleus/store/excel/valuegenerator/IncrementGenerator.java:122-135 | The search loop returns what `FindFrom` states. |
| Increment.SkipLeadingNullRows | src/java/org/datanucleus/store/excel/valuegenerator/IncrementGenerator.java:122-135 | Rows before the first present row are skipped. |
| Increment.NoRowsLeft | src/java/org/datanucleus/store/excel/valuegenerator/IncrementGenerator.java:122-135 | Past the last present row the search finds nothing. |
| Increment.ListBlock | src/java/org/datanucleus/store/excel/valuegenerator/IncrementGenerator.java:149-155 | The value loop lists `Block`. |
| Increment.ReserveBlock | src/java/org/datanucleus/store/excel/valuegenerator/IncrementGenerator.java:89-161 | The result and the sheets are what `Reserve` states; on a fault the sheets are unchanged. |
| Connection.ParseUrl | src/main/java/org/datanucleus/store/excel/ConnectionFactoryImpl.java:47-78 | No URL, an unknown prefix, or a remainder not starting with "file:" is refused; ooxml holds exactly for "ooxml:"; the filename is what follows "file:". |
| Connection.AfterPrefix | src/main/java/org/datanucleus/store/excel/ConnectionFactoryImpl.java:72-78 | A failure is `InvalidUrl` of the whole URL. |
| Connection.CreateManagedConnection | src/main/java/org/datanucleus/store/excel/ConnectionFactoryImpl.java:88-91 | An OOXML connection exactly when the URL said "ooxml:", else an XLS one, on the parsed file. |
| Connection.ParseComposed | src/main/java/org/datanucleus/store/excel/ConnectionFactoryImpl.java:47-78 | An accepted prefix, "file:" and a name parse back to that name and format. |
| Connection.ParsedIsComposed | src/main/java/org/datanucleus/store/excel/ConnectionFactoryImpl.java:47-78 | Every accepted URL is an accepted prefix, "file:" and its filename. |
| Max.NewMaxGenerator | src/java/org/datanucleus/store/excel/valuegenerator/MaxGenerator.java:43-62 | A missing or blank "sheet-name", then a missing or blank "column-index", then an unparsable one, are refused; otherwise the settings hold the given sheet and parsed column. |
| Max.SettingsRoundTrip | src/java/org/datanucleus/store/excel/valuegenerator/MaxGenerator.java:43-62 | Configuring from written-out settings gives those settings back. |
| Max.ReserveBlock | src/java/org/datanucleus/store/excel/valuegenerator/MaxGenerator.java:71-76 | Whatever the size, the block holds no values. |
| Persistence.StoreEachFailureStays | src/main/java/org/datanucleus/store/excel/ExcelPersistenceHandler.java:156 | Once a field fails, the whole field list fails with its fault. |
| Persistence.ProvideFieldsTo | src/main/java/org/datanucleus/store/excel/ExcelPersistenceHandler.java:156 | The field manager's calls, one per field, leave the row the field list states. |
| Persistence.InsertedRow | src/main/java/org/datanucleus/store/excel/ExcelPersistenceHandler.java:149-235 | All fields over the reused or new row, then the datastore identity cell, then the version cell. |
| Persistence.StoreEachReadsBack | src/main/java/org/datanucleus/store/excel/ExcelPersistenceHandler.java:156 | After the field loop, a plain one-column member among the fields whose column no other field writes reads back as the object's value. |
| Persistence.ProvideFieldsReadsBack | src/main/java/org/datanucleus/store/excel/ExcelPersistenceHandler.java:156 | The same after `provideFields`, which first fills the key cells. |
| Persistence.InsertedRowReadsBack | src/main/java/org/datanucleus/store/excel/ExcelPersistenceHandler.java:149-235 | The inserted row reads back every such member, when its column is neither the identity nor the version column. |
| Persistence.InsertThenFetchField | src/main/java/org/datanucleus/store/excel/ExcelPersistenceHandler.java:149-235 | After a successful insert, the row at the insert index reads back, for every such member, the value the object held. |
| Persistence.Insert | src/main/java/org/datanucleus/store/excel/ExcelPersistenceHandler.java:89-249 | An application- or datastore-identity object already present is refused; the new row goes at the active-row count (0 for a new sheet) and no other row or sheet changes. |
| Persistence.InsertKeepsCompact | src/main/java/org/datanucleus/store/excel/ExcelPersistenceHandler.java:129-156 | On a compact sheet an insert whose row is active keeps the sheet compact and adds exactly one active row. |
| Persistence.DatastoreInsertedRowActive | src/main/java/org/datanucleus/store/excel/ExcelPersistenceHandler.java:168-186 | For datastore identity the inserted row is active. |
| Persistence.InsertThenLocate | src/main/java/org/datanucleus/store/excel/ExcelPersistenceHandler.java:89-249 | After its insert, a datastore-identity object is found at the row the insert wrote. |
| Persistence.UpdatePlan | src/main/java/org/datanucleus/store/excel/ExcelPersistenceHandler.java:278-323 | Without versioning the object and fields are unchanged and no version cell is written; the field list stays valid. |
| Persistence.Update | src/main/java/org/datanucleus/store/excel/ExcelPersistenceHandler.java:256-397 | A missing sheet is an error, as is a missing row; on success only the class's sheet changes, by the plan's fields and version cell. |
| Persistence.UpdatedRowReadsBack | src/main/java/org/datanucleus/store/excel/ExcelPersistenceHandler.java:341-381 | The updated row reads back every plain one-column member of the plan that owns its column and is not in the version column. |
| Persistence.UpdateThenFetchField | src/main/java/org/datanucleus/store/excel/ExcelPersistenceHandler.java:256-397 | After a successful update, the located row reads back, for every such updated member other than the version member, the object's value. |
| Persistence.UpdateWritesVersion | src/main/java/org/datanucleus/store/excel/ExcelPersistenceHandler.java:350-381 | The version a successful update writes is what the row's version cell reads back. |
| Persistence.Delete | src/main/java/org/datanucleus/store/excel/ExcelPersistenceHandler.java:405-483 | A missing object is refused; in an XLS workbook the last row is emptied in place; any other row is removed and the rows below move up. |
| Persistence.DeleteClearsOrShifts | src/main/java/org/datanucleus/store/excel/ExcelPersistenceHandler.java:447-466 | The XLS last row is emptied and the sheet keeps its rows; otherwise every later row moves up by exactly one. |
| Persistence.DeleteKeepsCompact | src/main/java/org/datanucleus/store/excel/ExcelPersistenceHandler.java:447-466 | On a compact sheet deleting an active row keeps it compact with one active row fewer, on both paths. |
| Persistence.DatastoreLocatedRowActive | src/main/java/org/datanucleus/store/excel/ExcelUtils.java:176-197 | The row a datastore-identity search finds has its identity cell. |
| Persistence.DeleteThenNotFound | src/main/java/org/datanucleus/store/excel/ExcelPersistenceHandler.java:441-466 | When the deleted row was the only match, the object is no longer found. |
| Persistence.FetchEach | src/main/java/org/datanucleus/store/excel/ExcelPersistenceHandler.java:536 | Each field's value read from the row, or the first fault. |
| Persistence.Fetch | src/main/java/org/datanucleus/store/excel/ExcelPersistenceHandler.java:490-580 | A missing sheet is an error, an unlocated object not found; one value per field; no version is read when the class has none or the object has one. |
| Persistence.InsertThenFetchVersion | src/main/java/org/datanucleus/store/excel/ExcelPersistenceHandler.java:548-574 | A datastore-identity object fetched without a version after its insert gets the version the insert wrote. |
| Persistence.Locate | src/main/java/org/datanucleus/store/excel/ExcelPersistenceHandler.java:599-630 | Normal return exactly when some row matches the object, not found otherwise. |
| Persistence.LocateObject | src/main/java/org/datanucleus/store/excel/ExcelPersistenceHandler.java:599-630 | The method returns what `Locate` states. |
| Persistence.WriteInsertedRow | src/main/java/org/datanucleus/store/excel/ExcelPersistenceHandler.java:149-235 | The row built is `InsertedRow`. |
| Persistence.WriteKeyAndVersion | src/main/java/org/datanucleus/store/excel/ExcelPersistenceHandler.java:168-235 | After the fields are provided, the datastore key cell and then the version cell written give exactly `InsertedRow`. |
| Persistence.InsertObject | src/main/java/org/datanucleus/store/excel/ExcelPersistenceHandler.java:89-249 | The result and the sheets are what `Insert` states; on a fault the sheets are unchanged. |
| Persistence.AppendObjectRow | src/main/java/org/datanucleus/store/excel/ExcelPersistenceHandler.java:129-156 | For an object not already in the sheet, counting the active rows (0 when the sheet is missing) and writing the row there gives exactly `Insert`, including a count that fails on a null row. |
| Persistence.PlanVersion | src/main/java/org/datanucleus/store/excel/ExcelPersistenceHandler.java:278-323 | The method returns `UpdatePlan`. |
| Persistence.WriteUpdatedRow | src/main/java/org/datanucleus/store/excel/ExcelPersistenceHandler.java:348-381 | The row written is the one `Update` states. |
| Persistence.RewriteObjectRow | src/main/java/org/datanucleus/store/excel/ExcelPersistenceHandler.java:341-381 | Locating the row, refusing a missing one with `RowNotFound`, writing the planned fields and putting the row back gives exactly `Update`. |
| Persistence.UpdateObject | src/main/java/org/datanucleus/store/excel/ExcelPersistenceHandler.java:256-397 | The result and the sheets are what `Update` states. |
| Persistence.DeleteObject | src/main/java/org/datanucleus/store/excel/ExcelPersistenceHandler.java:405-483 | The result and the sheets are what `Delete` states. |
| Persistence.FetchObject | src/main/java/org/datanucleus/store/excel/ExcelPersistenceHandler.java:490-580 | The values and version are what `Fetch` states. |
| Persistence.FetchEachFailureStays | src/main/java/org/datanucleus/store/excel/ExcelPersistenceHandler.java:536 | Once a field's read fails, the whole fetch fails with its fault. |
| LegacyPersistence.SheetForClass | src/java/org/datanucleus/store/excel/ExcelUtils.java:208-218 | The class's sheet, or a datastore error when the workbook has none. |
| LegacyPersistence.StoreEachFailureStays | src/java/org/datanucleus/store/excel/ExcelPersistenceHandler.java:151 | Once a field fails, the whole field list fails. |
| LegacyPersistence.ProvideFieldsTo | src/java/org/datanucleus/store/excel/ExcelPersistenceHandler.java:151 | The field manager's calls leave the row the field list states. |
| LegacyPersistence.InsertedRow | src/java/org/datanucleus/store/excel/ExcelPersistenceHandler.java:144-217 | All fields, then the identity cell at slot -1, then the version cell at slot -2. |
| LegacyPersistence.StoreEachReadsBack | src/java/org/datanucleus/store/excel/ExcelPersistenceHandler.java:151 | After the field loop, a plain one-column member among the fields whose column no other field writes, and whose resolved column is its own, reads back as the object's value. |
| LegacyPersistence.InsertedRowReadsBack | src/java/org/datanucleus/store/excel/ExcelPersistenceHandler.java:144-217 | The inserted row reads back every such member, when its column is neither the slot -1 nor the slot -2 column. |
| LegacyPersistence.InsertThenFetchField | src/java/org/datanucleus/store/excel/ExcelPersistenceHandler.java:144-217 | After a successful insert, the row at the row count reads back, for every such member, the value the object held. |
| LegacyPersistence.Insert | src/java/org/datanucleus/store/excel/ExcelPersistenceHandler.java:90-230 | A failed search ends the insert and a present object is refused; the new row goes at the old row count (per key cell), and no other row or sheet changes. |
| LegacyPersistence.InsertThenLocate | src/java/org/datanucleus/store/excel/ExcelPersistenceHandler.java:90-230 | A datastore-identity object is found after its insert at the row the insert wrote, when the identity and version columns differ. |
| LegacyPersistence.DatastoreInsertKeepsCompact | src/java/org/datanucleus/store/excel/ExcelPersistenceHandler.java:126-182 | For datastore identity, insert keeps the identified rows first and adds one. |
| LegacyPersistence.UpdatePlan | src/java/org/datanucleus/store/excel/ExcelPersistenceHandler.java:252-296 | Without versioning the object and fields are unchanged and no version cell is written; the field list stays valid. |
| LegacyPersistence.Update | src/java/org/datanucleus/store/excel/ExcelPersistenceHandler.java:238-360 | A missing sheet is an error; on success only the class's sheet changes, by the plan's fields and version cell. |
| LegacyPersistence.UpdatedRowReadsBack | src/java/org/datanucleus/store/excel/ExcelPersistenceHandler.java:315-346 | The updated row reads back every plain one-column member of the plan that owns its column and is not in the slot -2 column. |
| LegacyPersistence.UpdateThenFetchField | src/java/org/datanucleus/store/excel/ExcelPersistenceHandler.java:238-360 | After a successful update, the located row reads back, for every such updated member other than the version member, the object's value. |
| LegacyPersistence.UpdateWritesVersion | src/java/org/datanucleus/store/excel/ExcelPersistenceHandler.java:335-346 | With a surrogate version, the next version is written where fetch reads it. |
| LegacyPersistence.Delete | src/java/org/datanucleus/store/excel/ExcelPersistenceHandler.java:372-445 | As in the current tree, after a search that may itself fail. |
| LegacyPersistence.DeleteClearsOrShifts | src/java/org/datanucleus/store/excel/ExcelPersistenceHandler.java:408-429 | The XLS last row is emptied in place; any other row is taken out and later rows move up by one. |
| LegacyPersistence.DeleteThenNotFound | src/java/org/datanucleus/store/excel/ExcelPersistenceHandler.java:402-429 | With the only matching row deleted, the object is no longer found. |
| LegacyPersistence.FetchEach | src/java/org/datanucleus/store/excel/ExcelPersistenceHandler.java:494 | Each field read from the row, or the first fault. |
| LegacyPersistence.FetchEachFailureStays | src/java/org/datanucleus/store/excel/ExcelPersistenceHandler.java:494 | Once a field's read fails, the whole fetch fails. |
| LegacyPersistence.Fetch | src/java/org/datanucleus/store/excel/ExcelPersistenceHandler.java:454-550 | A missing sheet is an error, an unlocated object not found; one value per field; no version is read when the class has none or the object has one. |
| LegacyPersistence.InsertThenFetchVersion | src/java/org/datanucleus/store/excel/ExcelPersistenceHandler.java:507-534 | With a surrogate version, a datastore-identity object fetched without a version gets the one its insert wrote. |
| LegacyPersistence.Locate | src/java/org/datanucleus/store/excel/ExcelPersistenceHandler.java:559-582 | Normal return exactly when the search succeeds and finds a row. |
| LegacyPersistence.LocateObject | src/java/org/datanucleus/store/excel/ExcelPersistenceHandler.java:559-582 | The method returns what `Locate` states. |
| LegacyPersistence.WriteInsertedRow | src/java/org/datanucleus/store/excel/ExcelPersistenceHandler.java:144-217 | The row built is `InsertedRow`. |
| LegacyPersistence.WriteKeyAndVersion | src/java/org/datanucleus/store/excel/ExcelPersistenceHandler.java:164-217 | After the fields are provided, the datastore key cell and then the version cell written give exactly `InsertedRow`. |
| LegacyPersistence.InsertObject | src/java/org/datanucleus/store/excel/ExcelPersistenceHandler.java:90-230 | The result and sheets are what `Insert` states. |
| LegacyPersistence.AppendObjectRow | src/java/org/datanucleus/store/excel/ExcelPersistenceHandler.java:126-151 | For an object not already in the sheet, counting the rows and writing the row at that count gives exactly `Insert`, including a count that fails. |
| LegacyPersistence.PlanVersion | src/java/org/datanucleus/store/excel/ExcelPersistenceHandler.java:252-296 | The method returns `UpdatePlan`. |
| LegacyPersistence.WriteUpdatedRow | src/java/org/datanucleus/store/excel/ExcelPersistenceHandler.java:323-346 | The row written is the one `Update` states. |
| LegacyPersistence.RewriteObjectRow | src/java/org/datanucleus/store/excel/ExcelPersistenceHandler.java:315-346 | Locating the row (a lookup that fails fails the update), refusing a missing one with `RowNotFound`, writing the planned fields and putting the row back gives exactly `Update`. |
| LegacyPersistence.UpdateObject | src/java/org/datanucleus/store/excel/ExcelPersistenceHandler.java:238-360 | The result and sheets are what `Update` states. |
| LegacyPersistence.DeleteObject | src/java/org/datanucleus/store/excel/ExcelPersistenceHandler.java:372-445 | The result and sheets are what `Delete` states. |
| LegacyPersistence.FetchObject | src/java/org/datanucleus/store/excel/ExcelPersistenceHandler.java:454-550 | The values and version are what `Fetch` states. |

## Left out

- File and connection I/O: opening, writing and closing the workbook file (`AbstractExcelManagedConnection`, `XLSManagedConnection`, `OOXMLStoreManager`), commit and rollback, and the connection's resource lifecycle. A handler works on the workbook's sheets as a value.
- Framework glue: `ExcelStoreManager`, `ExcelSchemaHandler`, the JDOQL/JPQL query front ends, and the host framework's metadata classes. Their answers are data or `Env` parameters.
- The embedded field managers (`StoreEmbeddedFieldManager`, `FetchEmbeddedFieldManager`) are not part of this model. An embedded member is modelled only where the top-level managers and the row lookup handle it directly.
- Floating point: POI keeps numbers as doubles. The model keeps integers, so fractional parts, rounding and `NaN` are not represented. `float` and `double` members hold integral values.
- Base64, `Date`/`Calendar` arithmetic, enum conversion, `TypeManager` converters and `IdentityUtils` are `Env` parameters and not defined here.
- A field store that fails partway: the model drops the partial row, while the Java code may leave the cells already written.
- Primitive fields (`storeIntField`, `fetchLongField` and the rest) reach the cell through the same path as boxed values. What is modelled is what each primitive method writes or reads.
- The next version (`VersionHelper.getNextVersion`) is a parameter of update. `setTransactionalVersion`, `setVersion` and the statistics counters are left out.
- Cascade delete (`DeleteFieldManager`), `wrapSCOField`, query ordering (`orderCandidates`) and `Optional` members are left out.
- POI's column limits (256 for XLS, 16384 for XLSX) and row limits are not checked. Columns are unbounded naturals.
- Strings are sequences of characters. The UTF-16 code-unit details of `String` and POI's rich-text strings are not modelled.
- `getCell` with a negative column throws under XSSF. The model reads that cell as absent under both formats.
- `ValueGenerationBlock` is not part of this model. A block is the list of values it holds, and `MaxGenerator`'s `null` block is treated as an empty one.
- Increment.Reserve: does not model `long` overflow of `currentVal + size` or `int` overflow of the counters, because Dafny integers are unbounded.
- A `Date` cell in an identity column is read as no identity (a `null` key).
- The framework guarantees that a persistent object's field values are keyed by its member positions. The model takes this as the `Valid()` predicates rather than proving it.
- Candidates: `findObject` and the loading of fields from a candidate's row are abstracted to the candidate's identity.
- On an empty sheet POI's `getLastRowNum` is modelled as -1 (the HSSF value).
- When POI reads a cell of the wrong kind (a number as text, a text as a number), it throws `IllegalStateException`. `cellMatches` treats that case as no match.
- The older tree keeps the version in its field when it has one. Its insert resolves the version column through slot -2, and its fetch reads the version field's own column. Both places are modelled where the code reads them, with no lemma that the two agree; the slot -2 column itself comes from the corrected resolver (see `LegacyExcelUtils.VersionColumn` below).
- The older tree counts rows by present identity cells one cell at a time, so a composite key counts each present cell. This count is modelled as written (`RowAccounting`); no exact-count claim is made for it.
- StoreFields.CellForType: states which classes get a cell, not what each cell holds. That is stated by the round trip `FetchFields.CellRoundTrip`.
- StoreFields.ContainerText: states only that the text is bracketed and when there is none. Its contents are stated by `BuildElementsText`, `BuildMapText` and the round-trip lemmas.
- FetchFields.DecodeContainer: states only when it refuses. What each container decodes to is stated by `CollectionRoundTrip`, `ArrayRoundTrip` and `MapRoundTrip`.
- FetchFields.ValueOfType: states the result for the `String` and number classes and for blank date cells. Enums, `byte[]` and converters are stated by the round-trip lemmas.
- Bookkeeping.ShiftUp: states only that the sheet keeps its length. Where each row goes is stated by `RemoveRowShiftsUp`.
- Connection.AfterPrefix: states only the failure. What it accepts is stated by `ParseComposed` and `ParsedIsComposed`.
- LegacyFetchFields.ParseBigInteger: states only that the empty text is refused. What it accepts is stated by `ParseBigIntegerDecimal` and `PointRefused`.
- ExcelUtils.EmbeddedCriteria: states how many comparisons there are, one per embedded member, not the column and value of each.
- LegacyExcelUtils.ColumnIndexForField: uses the corrected slot resolver: a declared `position` of the datastore-identity (slot -1) or version (slot -2) column is honoured, where the code as written ignores it (first finding below). `LegacyExcelUtils.CorrectionOnlyHonoursPositions` shows the two agree whenever no such position is declared.
- LegacyExcelUtils.IdentityColumn: uses the corrected slot resolver, as stated for `LegacyExcelUtils.ColumnIndexForField`.
- LegacyExcelUtils.VersionColumn: uses the corrected slot resolver, as stated for `LegacyExcelUtils.ColumnIndexForField`.
- LegacyExcelUtils.RowNumber: uses the corrected slot resolver, as stated for `LegacyExcelUtils.ColumnIndexForField`.
- LegacyExcelUtils.GetRowNumber: uses the corrected slot resolver, as stated for `LegacyExcelUtils.ColumnIndexForField`.
- LegacyExcelUtils.RowCount: uses the corrected slot resolver for the datastore-identity column it counts, as stated for `LegacyExcelUtils.ColumnIndexForField`.
- LegacyExcelUtils.NumberOfRows: uses the corrected slot resolver, as stated for `LegacyExcelUtils.ColumnIndexForField`.
- LegacyCandidates.ExtentOf: uses the corrected slot resolver, as stated for `LegacyExcelUtils.ColumnIndexForField`.
- LegacyPersistence.InsertedRow: uses the corrected slot resolver, as stated for `LegacyExcelUtils.ColumnIndexForField`.
- LegacyPersistence.Insert: uses the corrected slot resolver, as stated for `LegacyExcelUtils.ColumnIndexForField`.
- LegacyPersistence.Update: uses the corrected slot resolver, as stated for `LegacyExcelUtils.ColumnIndexForField`.
- LegacyPersistence.Delete: uses the corrected slot resolver, as stated for `LegacyExcelUtils.ColumnIndexForField`.
- LegacyPersistence.Locate: uses the corrected slot resolver, as stated for `LegacyExcelUtils.ColumnIndexForField`.
- LegacyPersistence.LocateObject: uses the corrected slot resolver, as stated for `LegacyExcelUtils.ColumnIndexForField`.
- LegacyPersistence.WriteInsertedRow: uses the corrected slot resolver, as stated for `LegacyExcelUtils.ColumnIndexForField`.
- LegacyPersistence.WriteKeyAndVersion: uses the corrected slot resolver, as stated for `LegacyExcelUtils.ColumnIndexForField`.
- LegacyPersistence.InsertObject: uses the corrected slot resolver, as stated for `LegacyExcelUtils.ColumnIndexForField`.
- LegacyPersistence.AppendObjectRow: uses the corrected slot resolver, as stated for `LegacyExcelUtils.ColumnIndexForField`.
- LegacyPersistence.WriteUpdatedRow: uses the corrected slot resolver, as stated for `LegacyExcelUtils.ColumnIndexForField`.
- LegacyPersistence.RewriteObjectRow: uses the corrected slot resolver, as stated for `LegacyExcelUtils.ColumnIndexForField`.
- LegacyPersistence.UpdateObject: uses the corrected slot resolver, as stated for `LegacyExcelUtils.ColumnIndexForField`.
- LegacyPersistence.DeleteObject: uses the corrected slot resolver, as stated for `LegacyExcelUtils.ColumnIndexForField`.
- LegacyFetchFields.FetchObject: uses the corrected decoder: a `BigInteger` is parsed from the integral text of the cell's number, a persistable map key or value is resolved from its own stripped component, and an array's elements are resolved as a collection's. The code as written refuses the first, looks up the raw value component for the second, and throws on the missing collection metadata for the third (fourth, second and last findings below).
- LegacyFetchFields.PlainFieldRoundTrip: uses the corrected decoder, as stated for `LegacyFetchFields.FetchObject`.
- LegacyPersistence.FetchEach: uses the corrected decoder, as stated for `LegacyFetchFields.FetchObject`.
- LegacyPersistence.Fetch: uses both the corrected slot resolver and the corrected decoder, as stated for `LegacyExcelUtils.ColumnIndexForField` and `LegacyFetchFields.FetchObject`.
- LegacyPersistence.FetchObject: uses both the corrected slot resolver and the corrected decoder, as stated for `LegacyExcelUtils.ColumnIndexForField` and `LegacyFetchFields.FetchObject`.
- StoreFields.StoreInternal: uses the corrected reference store: a `null` single-valued relation removes the cell whatever the cascade setting, where the code as written refuses it when cascade-persist is off (the StoreFieldManager.java:433-460 finding below).
- StoreFields.StoreObject: uses the corrected reference store, as stated for `StoreFields.StoreInternal`.
- StoreFields.NullRemovesCell: uses the corrected reference store, as stated for `StoreFields.StoreInternal`.
- StoreFields.StoreFieldManager.StoreObjectField: uses the corrected reference store, as stated for `StoreFields.StoreInternal`.
- StoreFields.StoreFieldManager.WriteInternal: uses the corrected reference store, as stated for `StoreFields.StoreInternal`.
- Persistence.ProvideFieldsTo: stores its fields through the corrected reference store, as stated for `StoreFields.StoreInternal`; an object whose single-valued relation holds `null` with cascade-persist off is stored here, where the code as written throws.
- Persistence.InsertedRow: stores its fields through the corrected reference store, as stated for `StoreFields.StoreInternal`; an object whose single-valued relation holds `null` with cascade-persist off is stored here, where the code as written throws.
- Persistence.Insert: stores the object's fields through the corrected reference store, as stated for `StoreFields.StoreInternal`; an object whose single-valued relation holds `null` with cascade-persist off is stored here, where the code as written throws.
- Persistence.WriteInsertedRow: stores its fields through the corrected reference store, as stated for `StoreFields.StoreInternal`; an object whose single-valued relation holds `null` with cascade-persist off is stored here, where the code as written throws.
- Persistence.InsertObject: stores the object's fields through the corrected reference store, as stated for `StoreFields.StoreInternal`; an object whose single-valued relation holds `null` with cascade-persist off is stored here, where the code as written throws.
- Persistence.AppendObjectRow: stores the object's fields through the corrected reference store, as stated for `StoreFields.StoreInternal`; an object whose single-valued relation holds `null` with cascade-persist off is stored here, where the code as written throws.
- Persistence.Update: stores the updated fields through the corrected reference store, as stated for `StoreFields.StoreInternal`; an object whose single-valued relation holds `null` with cascade-persist off is stored here, where the code as written throws.
- Persistence.WriteUpdatedRow: stores the updated fields through the corrected reference store, as stated for `StoreFields.StoreInternal`; an object whose single-valued relation holds `null` with cascade-persist off is stored here, where the code as written throws.
- Persistence.RewriteObjectRow: stores the updated fields through the corrected reference store, as stated for `StoreFields.StoreInternal`; an object whose single-valued relation holds `null` with cascade-persist off is stored here, where the code as written throws.
- Persistence.UpdateObject: stores the updated fields through the corrected reference store, as stated for `StoreFields.StoreInternal`; an object whose single-valued relation holds `null` with cascade-persist off is stored here, where the code as written throws.
- Cells.CellMatches: where Java throws, the model gives a non-match. This covers a cell of the wrong kind (`IllegalStateException`), a `null` value unboxed for a primitive class (`NullPointerException`), `charAt(0)` on an empty text (`StringIndexOutOfBoundsException`) and `getTime()` on the `null` date of a blank cell (`NullPointerException`).
- FetchFields.ReadComponents: does not distinguish a primitive component class from its boxed class, so the `IllegalArgumentException` of `Array.set` storing `null` (an absent cell) into a primitive array is not modelled; the slot holds `null`.
- FetchFields.ReadComponentsLoop: the same `Array.set` exception for a primitive component class is not modelled.
- FetchFields.FetchConverted: a multi-column converter on a one-column member gives `null`, the value of the code's warning path for a datastore class it does not handle. The primitive-array exception of `ReadComponents` is not modelled here either.
- JavaText.ParseInt: accepts only the ASCII digits `0`-`9`. `Integer.valueOf` also accepts the other Unicode decimal digits, which are not modelled.
- LegacyStoreFields.ConvertedCell: a converter whose datastore class is the abstract `Number` is treated like any number class other than `Double` (a class cast), which is what the cast to `Double` does for every value except a `Double`.
- Persistence.InsertedRow: what the row holds for each field is stated by `Persistence.InsertThenFetchField` for plain one-column members. Relations, converters and container text are stated per member by the field managers' round trips, not through insert.
- Persistence.Update: what the row holds for each updated field is stated by `Persistence.UpdateThenFetchField` for plain one-column members only, as for insert.
- LegacyPersistence.InsertedRow: what the row holds for each field is stated by `LegacyPersistence.InsertThenFetchField` for plain one-column members only.
- LegacyPersistence.Update: what the row holds for each updated field is stated by `LegacyPersistence.UpdateThenFetchField` for plain one-column members only.
- FetchFields.DecodeArray: resolves the array's elements, where the code as written throws `NullPointerException` on the missing collection metadata of an array member (second-last finding below, `FetchFields.DecodeArrayAsWritten`).
- FetchFields.DecodeContainer: its array branch is the corrected one, as stated for `FetchFields.DecodeArray`.
- FetchFields.ElementsContainerDecodes: its array half is about the corrected array branch, as stated for `FetchFields.DecodeArray`.
- FetchFields.ArrayRoundTrip: holds for the corrected array branch only; as written no array holding an element reads back (`FetchFields.StoredArrayRefusedAsWritten`).
- FetchFields.FetchInternal: decodes arrays with the corrected branch, as stated for `FetchFields.DecodeArray`.
- FetchFields.FetchObject: decodes arrays with the corrected branch, as stated for `FetchFields.DecodeArray`.
- Persistence.FetchEach: decodes arrays with the corrected branch, as stated for `FetchFields.DecodeArray`.
- Persistence.Fetch: decodes arrays with the corrected branch, as stated for `FetchFields.DecodeArray`.
- Persistence.FetchObject: decodes arrays with the corrected branch, as stated for `FetchFields.DecodeArray`.
- LegacyFetchFields.DecodeArray: resolves every component, where the code as written throws `NullPointerException` on the missing collection metadata (last finding below, `LegacyFetchFields.StoredArrayRefusedAsWritten`).
- LegacyFetchFields.ElementsRoundTrip: its array half holds for the corrected decode only; as written no array holding an element reads back (`LegacyFetchFields.StoredArrayRefusedAsWritten`).
- Cells.NumberOf: POI keeps a date as a numeric cell, so `getNumericCellValue` reads a date cell as its serial day number and `getDateCellValue` reads a numeric cell as a date. The model keeps dates as their own cell kind: a date cell is not readable as a number, nor a number cell as a date.
- FetchFields.FetchNumber: a date cell is refused as the wrong kind, where POI gives its serial number (see `Cells.NumberOf`).
- FetchFields.FetchChar: a date cell is refused, where the numeric branch casts its serial number (see `Cells.NumberOf`).
- FetchFields.ConvertedRead: a date cell gives `null`, where POI's numeric branch hands its serial number to the `Long` converter (see `Cells.NumberOf`).
- LegacyFetchFields.FetchNumber: a date cell is refused as the wrong kind, where POI gives its serial number (see `Cells.NumberOf`).
- StoreFields.IdOf: that the framework persists `null` as `null`, gives it no identity, and turns no identity into a `null` string is taken from the framework, which is not part of this model.

## Findings

| source | as written | input that shows it | evidently intended | confidence | as-written member | corrected member |
|---|---|---|---|---|---|---|
| src/java/org/datanucleus/store/excel/ExcelUtils.java:96-153 | For slot -1 (datastore identity) and slot -2 (version), the explicit `position` of the column metadata is looked at but never returned. The code always falls through to the number-like name or the default column after the members. | a class with one member whose datastore-identity column declares `position="0"`: the code gives column 1 | the declared position is the column, as it is for ordinary members | high; not executed | LegacyExcelUtils.IdentityPositionIgnored, LegacyExcelUtils.IdentityPositionCounterexample | LegacyExcelUtils.ColumnIndexForField, LegacyExcelUtils.CorrectionOnlyHonoursPositions |
| src/java/org/datanucleus/store/excel/fieldmanager/FetchFieldManager.java:545-592 | The map loop resolves a persistable key (and value) from the value component as it stands in the text, with its brackets, instead of from the stripped key text. | any map with a persistable key stored as `[[k],[v]]`: the lookup is of `[v]`, which names no object | the key is resolved from `k` and the value from `v` | high; not executed | LegacyFetchFields.MapKeyFromRawComponent | LegacyFetchFields.MapRoundTrip |
| src/java/org/datanucleus/store/excel/fieldmanager/FetchFieldManager.java:111-121 | `fetchCharField` reads the cell's text, but the older store side writes a `char` as a numeric cell. POI refuses a numeric cell read as text. | a `char` member holding `'a'`, stored as number 97 | the read gives back the stored character | high; not executed | LegacyFetchFields.StoredCharRefused, LegacyFetchFields.FetchCharAsWritten | LegacyFetchFields.FetchChar |
| src/java/org/datanucleus/store/excel/fieldmanager/FetchFieldManager.java:345-347 | A `BigInteger` is rebuilt with `new BigInteger("" + cell.getNumericCellValue())`. The text of a double always holds a point, which `BigInteger` refuses. | a `BigInteger` member holding 5: the text is `5.0` | the text of the integral value (`5`) is parsed | high; not executed | LegacyFetchFields.BigIntegerRefused | LegacyFetchFields.ClassValue |
| src/main/java/org/datanucleus/store/excel/fieldmanager/StoreFieldManager.java:433-460 | With cascade-persist off, the reachability check runs before the `null` test. It refuses a `null` reference instead of removing the cell. The embedded store path (`StoreFieldManager.java:238-247`) has the same order for an embedded single-valued relation; the embedded managers are not part of this model. | a single-valued relation set to `null` on a member without cascade-persist | `null` removes the cell whatever the cascade setting | medium; not executed | StoreFields.StoreReferenceAsWritten, StoreFields.NullReferenceRefusedAsWritten | StoreFields.StoreReference, StoreFields.ReferenceCorrectionOnlyNull |
| src/main/java/org/datanucleus/store/excel/fieldmanager/FetchFieldManager.java:624-631 | The array branch asks `mmd.getCollection()` for the element class, but an array member carries array metadata (the store side tests `mmd.hasArray()`), so `getCollection()` is `null` and any text with components throws `NullPointerException`. | an array member holding one reference, stored as `[id]` | the elements are resolved as for a collection | high; not executed | FetchFields.DecodeArrayAsWritten, FetchFields.StoredArrayRefusedAsWritten | FetchFields.DecodeContainer, FetchFields.ArrayRoundTrip |
| src/java/org/datanucleus/store/excel/fieldmanager/FetchFieldManager.java:623-656 | The older array loop asks `mmd.getCollection()` for the element class on every component; for an array member it is `null`, so an array with a component throws `NullPointerException`. | an array member holding one reference, stored as `[id]` | the elements are resolved as for a collection | high; not executed | LegacyFetchFields.ContainerValue, LegacyFetchFields.StoredArrayRefusedAsWritten | LegacyFetchFields.ElementsRoundTrip |
