/** Failure-carrying results and the error conditions the decoder raises.
    Each constructor of Error stands for one raise site (or one Python exception
    that the code lets escape). */
module Common {
  import opened Bytes

  datatype Option<+T> = None | Some(value: T)

  datatype Result<+T> = Success(value: T) | Failure(error: Error)

  datatype Error =
    /** `struct.unpack` handed fewer bytes than its format needs (struct.error). */
    | ShortRead
    /** A negative length field: `struct.calcsize` rejects a negative repeat count
        (struct.error), and a negative blob length is rejected the same way. */
    | NegativeLength(count: int)
    /** A tag type code outside the table of eleven codes (ValueError). */
    | UnknownTagType(code: nat)
    /** A second tag for an ident that already has an entry, met with a negative index (KeyError). */
    | DuplicateScalar(ident: seq<Byte>)
    /** An index-0 tag for an ident that already has an entry (ValueError). */
    | IndexZeroNotFirst(ident: seq<Byte>)
    /** An index k > 0 tag for an ident that has no entry yet (KeyError). */
    | MissingFirstElement(ident: seq<Byte>, index: int)
    /** An index k > 0 tag for an ident whose entry is a scalar (TypeError, AttributeError or
        ValueError, depending on the type of the scalar). */
    | ScalarNotGroup(ident: seq<Byte>, index: int)
    /** An index k > 0 tag while the ident's list holds a different number of values (ValueError). */
    | IndexOutOfOrder(ident: seq<Byte>, index: int, groupLength: nat)
    /** The leading magic bytes name no known format (ValueError). */
    | UnrecognizedFormat
    /** A known format, version or mode with no implementation (NotImplementedError). */
    | NotImplemented
    /** An identity with no loader (ValueError). */
    | NoLoader
    /** A struct format built from a bytes object instead of a count (struct.error). */
    | BadStructFormat
    /** `read` called with a bytes object instead of a count (TypeError). */
    | ReadSizeNotInteger
}
