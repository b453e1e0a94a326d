/** Outcomes of the operations. A Go panic is the error `Panic`. */
module Results {
  datatype Option<+T> = None | Some(value: T)

  datatype Result<+T> = Ok(value: T) | Err(error: Error)

  datatype Error =
    | IndexOutOfRange
    | HeightNegative
    | NotPowerOfTwo
    | SubtreeFull
    | SubtreeNil
    | SubtreeNotEmpty
    | NoSubtreesAvailable
    | CoinbasePlaceholderMisuse
    | ConflictingNodeNotInSubtree
    | TargetHeightTooSmall
    | ParentTxHashesMismatch
    | CannotSerializeSubtreeNotSet
    | ConversionError
    | Panic
}
