/**
 * Optional values and the failures the plugin raises.  Java signals every
 * error with an exception; the model returns it as a `Failure`.
 */
module Outcomes {

  datatype Option<T> = None | Some(value: T)

  /** The exceptions the modelled code raises, one constructor per kind. */
  datatype Fault =
    | SheetNotFound(sheet: string)           // NucleusDataStoreException, sheet missing
    | ObjectNotFound                         // NucleusObjectNotFoundException
    | DuplicateIdentity                      // NucleusUserException on insert
    | RowNotFound                            // NucleusDataStoreException on update
    | NullRow                                // NullPointerException on a missing row
    | NullCell                               // NullPointerException on a missing cell
    | EmbeddedKey                            // NucleusUserException, embedded key field
    | NotCascaded                            // ReachableObjectNotCascadedException
    | Unsupported                            // NucleusException, unsupported mapping
    | InvalidColumnSlot(fieldNumber: int)    // NucleusException from the column resolver
    | NoSuchElement                          // NoSuchElementException
    | NoAutoCreate(sheet: string)            // NucleusUserException, table creation disabled
    | MissingUrl                             // NucleusException, no connection URL
    | InvalidUrl(url: string)                // NucleusException, malformed URL
    | MissingProperty(name: string)          // NucleusException, absent or blank property
    | BadInteger(text: string)               // NumberFormatException / NucleusException
    | WrongCellKind                          // IllegalStateException, a cell read as another kind
    | IndexOutOfBounds                       // ArrayIndexOutOfBounds- or StringIndexOutOfBoundsException
    | NoEnumConstant(name: string)           // IllegalArgumentException from Enum.valueOf
    | InvalidColumnIndex(column: int)        // IllegalArgumentException, a cell at a negative column
    | UnsupportedType                        // NucleusException, a member type the plugin cannot read
    | NullConverter                          // NullPointerException on a missing type converter
    | NullValue                              // NullPointerException on unboxing or encoding a null
    | ClassCast                              // ClassCastException, a value of another class
    | NoCollectionMetaData                   // NullPointerException, an array member asked for collection metadata
    | NotPersistable                         // the framework cannot persist a non-persistable value

  /** How a state-changing call ends: normally, or with an exception. */
  datatype Outcome = Done | Fail(fault: Fault)

  datatype Result<T> = Success(value: T) | Failure(fault: Fault)
  {
    predicate IsFailure() { Failure? }

    function PropagateFailure<U>(): Result<U>
      requires Failure?
    {
      Failure(fault)
    }

    function Extract(): T
      requires Success?
    {
      value
    }
  }
}
