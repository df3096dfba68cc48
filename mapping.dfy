/**
 * What the current tree reads from the framework's metadata: per class its
 * sheet, identity kind, members and surrogate columns, and per member the
 * column mapping (`MemberColumnMapping`) the framework's `Table` gives it.
 * An object is seen through its state manager: its field values, the
 * original values kept for a nondurable update, and its identity and version.
 */
module Mapping {
  import opened Outcomes
  import opened Values

  datatype Identity = Application | Datastore | Nondurable

  /** `RelationType.NONE`, single-valued and multi-valued relations. */
  datatype Relation = NoRelation | SingleValued | MultiValued

  /** `mmd.hasCollection()`, `mmd.hasMap()`, an array type, or none of these. */
  datatype Container = NoContainer | CollectionOf | MapOf | ArrayOf

  /** A member of an embedded class: the column it maps to, its class and its converter. */
  datatype EmbeddedColumn = EmbeddedColumn(column: nat, jtype: JType, converter: Option<Converter>)

  datatype Member = Member(
    jtype: JType,                  // mmd.getType()
    relation: Relation,
    embedded: bool,                // the member is stored embedded
    storableOnInsert: bool,        // the framework's isStorable, on insert
    storableOnUpdate: bool,        // the framework's isStorable, on update
    columns: seq<nat>,             // positions of the mapping's columns
    numericColumn: bool,           // column 0 has a numeric JDBC type
    converter: Option<Converter>,  // mapping.getTypeConverter()
    cascadePersist: bool,          // mmd.isCascadePersist()
    container: Container,
    keyPersistable: bool,          // the map key class is persistable
    valuePersistable: bool,        // the map value class is persistable
    keyType: JType,                // the map key class, when not persistable
    valueType: JType,              // the map value class, when not persistable
    enumConstants: seq<string>,    // names of the constants, for an enum member
    keyConstants: seq<string>,     // names of the constants, for an enum map key class
    valueConstants: seq<string>,   // names of the constants, for an enum map value class
    embeddedColumns: seq<EmbeddedColumn>)
  {
    /** `getColumn(0).getPosition()`. */
    function Column0(): nat
      requires |columns| > 0
    {
      columns[0]
    }
  }

  datatype VersionStrategy = VersionNumber | DateTime | OtherStrategy

  /**
   * Version metadata: the strategy, the version field when the version is
   * kept in a field (and whether that field is an `int`), and the surrogate
   * `VERSION` column used otherwise.
   */
  datatype VersionMeta = VersionMeta(
    strategy: VersionStrategy,
    field: Option<nat>,
    fieldIsInt: bool,
    surrogateColumn: nat)

  datatype ClassMeta = ClassMeta(
    table: string,                 // the sheet name
    identity: Identity,
    members: seq<Member>,          // by absolute position
    pkPositions: seq<nat>,         // cmd.getPKMemberPositions()
    datastoreIdColumn: nat,        // the DATASTORE_ID surrogate column
    version: Option<VersionMeta>)
  {
    /** The metadata is internally consistent, as the framework guarantees. */
    predicate Valid()
    {
      (forall i :: 0 <= i < |pkPositions| ==> pkPositions[i] < |members|) &&
      (forall i :: 0 <= i < |members| ==> |members[i].columns| > 0) &&
      (version.Some? && version.value.field.Some? ==> version.value.field.value < |members|)
    }

    /** The column of the `j`-th key member. */
    function KeyColumn(j: nat): nat
      requires Valid() && j < |pkPositions|
    {
      members[pkPositions[j]].Column0()
    }
  }

  /** An object as its state manager shows it. */
  datatype ObjState = ObjState(
    fields: seq<Value>,            // provideField, by absolute position
    originals: map<nat, Value>,    // ORIGINAL_FIELD_VALUE_KEY_PREFIX associated values
    datastoreKey: Value,           // target key of the datastore identity
    txVersion: Option<Value>)      // the transactional version, if set
  {
    /** `sm.provideField(i)`. */
    function Provide(i: nat): Value
    {
      if i < |fields| then fields[i] else VNull
    }
  }

  /** `embSM.provideField(j)` on the state manager of an embedded value. */
  function EmbeddedField(v: Value, j: nat): Value
  {
    if v.VEmbedded? && j < |v.fields| then v.fields[j] else VNull
  }
}
