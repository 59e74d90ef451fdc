/** The failures the image model can report, and the two result shapes the
    operations return: a value or an error (`Result`), or just pass/fail
    (`Outcome`), and an `Option`. The textual context the tool wraps around an error is not
    modelled; the error kind and the values it reports are. */
module Errors {

  datatype Error =
    /** The header needs 256 bytes and the stream has fewer. */
    | ShortHeader
    /** start + length is beyond 256 + len(data). */
    | RangeBeyondImage(start: nat, length: nat, total: nat)
    /** The range starts inside the header and ends past it. */
    | RangeStraddlesHeader(end: nat, headerSize: nat)
    /** The buffer handed to SetRange is not as long as the range. */
    | LengthMismatch(rangeLength: nat, bufferLength: nat)
    /** SetRange refuses every range that starts inside the header. */
    | HeaderNotWritable
    /** Stored and recomputed checksums differ. */
    | DirectoryCrcMismatch(storedByte: bv8, computedByte: bv8)
    | VpdCrcMismatch(stored: bv32, computed: bv32)
    | RomCrcMismatch(stored: bv32, computed: bv32)
    /** No directory entry has type 0 and a non-zero size. */
    | NoRomEntry

  datatype Result<T> = Ok(value: T) | Err(error: Error)

  datatype Option<T> = None | Some(value: T)

  datatype Outcome = Pass | Fail(error: Error)
}
