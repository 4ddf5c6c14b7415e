/** The exceptions the reader raises, as values. Every stage stops at the
    first one it meets. */
module Errors {

  datatype Option<T> = None | Some(value: T)

  datatype Error =
      /** A fixed-size header overlaid on a slice that is too short
          (the ValueError raised by the ctypes overlays). */
    | BufferTooSmall(needed: nat, available: nat)
      /** A physical record shorter than its steering block declares,
          or, on an in-memory stream, one whose declared length is
          negative (zebra.py:77). */
    | PhysicalRecordTruncated(declared: int, read: nat)
      /** A padding record whose control word declares size 0 (zebra.py:125). */
    | EmptyPaddingRecord
      /** A control word whose type is none of 1..6 (zebra.py:132). */
    | UnknownRecordType(recordType: nat)
      /** A normal logical record whose body is shorter than its control
          word declares, or whose declared size is below 10 (zebra.py:138). */
    | LogicalRecordTruncated(declared: int, sliced: nat)
      /** An IOControl word whose size field is below 12, which would move
          the bank cursor backwards (zebra.py:152). */
    | BackwardSeek(size: nat)
      /** A bank whose payload is shorter than its header declares (zebra.py:156). */
    | BankDataTruncated(declared: int, read: nat)

  datatype Result<T> = Ok(value: T) | Err(error: Error)
}
