/**
 * What the older tree (`src/java`) reads from the framework's metadata.
 * Besides the column positions the framework's `Table` assigns (which its
 * store side uses), it reads the user's own column metadata: an explicit
 * position, a column name that may hold a number, and a JDBC type.  Its
 * column resolver in `LegacyExcelUtils` works from these.
 */
module LegacyMapping {
  import opened Outcomes
  import opened Values
  import opened Mapping

  /** `ColumnMetaData`: the `position`, `name` and `jdbc-type` attributes, each possibly unset. */
  datatype ColumnMD = ColumnMD(position: Option<int>, name: Option<string>, jdbcType: Option<string>)

  /**
   * A member: what the `Table` says about it, its own column metadata
   * (`mmd.getColumnMetaData()`), and for an embedded member the column
   * metadata of the embedded metadata's members and the classes of the
   * embedded class's managed members.
   */
  datatype LegacyMember = LegacyMember(
    member: Member,
    columnMDs: seq<ColumnMD>,
    embeddedMDs: seq<seq<ColumnMD>>,
    embeddedTypes: seq<JType>)

  /** Version metadata with the column metadata of the surrogate version column. */
  datatype LegacyVersion = LegacyVersion(meta: VersionMeta, columnMD: Option<ColumnMD>)

  datatype LegacyClass = LegacyClass(
    table: string,                     // the sheet name
    identity: Identity,
    members: seq<LegacyMember>,        // by absolute position, inherited ones first
    pkPositions: seq<nat>,
    identityColumnMD: Option<ColumnMD>, // the column metadata of the datastore identity, if any
    datastoreIdColumn: nat,            // the `Table`'s datastore identity column
    version: Option<LegacyVersion>)
  {
    predicate Valid()
    {
      (forall i :: 0 <= i < |pkPositions| ==> pkPositions[i] < |members|) &&
      (forall i :: 0 <= i < |members| ==> |members[i].member.columns| > 0) &&
      (version.Some? && version.value.meta.field.Some? ==> version.value.meta.field.value < |members|)
    }
  }
}
