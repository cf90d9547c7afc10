/** The ways an operation of the ledger can end. Go's log.Panic, nil dereferences
    and out-of-range slicing abort the process; here they are error values. */
module Outcomes {

  datatype Option<T> = None | Some(value: T)

  /** Why an operation aborted. */
  datatype Failure =
    | NotEnoughFunds    // the selected outputs do not cover the amount to send
    | TxNotFound        // no transaction with the requested ID on the chain
    | PrevTxMissing     // a referenced transaction is absent from the map handed to Sign/Verify
    | IndexOutOfRange   // an input's Vout is not a position of the referenced transaction's outputs
    | AddressTooShort   // a decoded address has fewer than the 5 bytes of version and checksum
    | RecordMissing     // the chainstate record of a spent transaction is absent
    | BucketMissing     // the chainstate bucket has not been created
    | BlockMissing      // the iterator's current hash is not a key of the blocks bucket
    | KeyRequired       // a bolt Put with an empty key

  datatype Result<T> = Ok(value: T) | Err(error: Failure)
}
