/**
 * Outcomes of the codec's operations. Every exception the Java codec can
 * raise on its inputs becomes a Failure carrying one of the error kinds
 * below; the kinds refine the single java.lang.Exception of the source.
 */
module Results {

  datatype Error =
    | MalformedHex          // Integer.parseInt(_, 16) on a character that is not a hex digit
    | MalformedNumber       // Integer.parseInt / Long.parseLong on a non-numeric or too large string
    | SerialNotNumeric      // SGTIN-96 serial that Long.parseLong rejects
    | SerialOutOfRange      // SGTIN-96 serial above 274877906944
    | SerialTooLong         // SGTIN-198 serial longer than 20 characters
    | FilterOutOfRange      // filter above 7
    | InvalidPartition      // partition missing from the partition tables (null unboxing)
    | CompanyPrefixTooLong  // company prefix value wider than the partition allows
    | ItemReferenceTooLong  // item reference value wider than the partition allows
    | UnsupportedHeader     // header byte missing from the header table (null dereference)
    | IndexOutOfRange       // String.substring outside the string
    | MissingField          // a field read from a map that does not hold it (null dereference)
    | ChecksumError         // getChecksum on a string holding a non-digit
    | NotSupported          // URI builder asked for a header it does not handle

  datatype Result<+T> = Success(value: T) | Failure(error: Error) {
    predicate IsFailure() {
      Failure?
    }

    function PropagateFailure<U>(): Result<U>
      requires Failure?
    {
      Failure(error)
    }

    function Extract(): T
      requires Success?
    {
      value
    }
  }

  /** A Java reference that may be null. */
  datatype Option<+T> = None | Some(value: T)
}
