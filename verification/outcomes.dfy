/** Optional values, the errors the game rules raise, and results that carry either. */
module Outcomes {

  /** A value that may be missing; stands in for the source's null pointers. */
  datatype Option<+T> = None | Some(value: T)

  /** Every failure of the rules. The source throws std::logic_error for all of them
      but the last, and the model keeps them apart so that contracts can say which
      check refused. NoCurrentObjective has no check in the source: it stands for the
      null current objective that the source dereferences. */
  datatype Error =
    | OutOfBounds          // a position outside the 7 by 7 maze
    | NotInserrable        // a card cannot be pushed in at that position
    | NotMovable           // a steady card cannot be rotated
    | NotWaiting           // a player must be waiting before moving the pathways
    | NotReadyToMove       // a player must have moved the pathways before finishing
    | ObjectivesExhausted  // every objective card is already turned over
    | NoCurrentObjective   // no current objective has been selected yet

  /** The outcome of an operation that throws in the source. A Failure leaves the
      caller's value as it was, since the model's values are immutable. */
  datatype Result<+T> = Success(value: T) | Failure(error: Error)
}
