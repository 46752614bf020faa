/** Types shared by the auction and team services: document ids, optional
    values, results, and the HTTP exceptions the services throw. */
module Common {

  /** A document id as the store hands it out (a Mongo ObjectId string). */
  type Id = string

  /** A nullable field or an optional DTO member. */
  datatype Option<+T> = None | Some(value: T)

  /** The outcome of a service call: a value, or the exception it threw. */
  datatype Result<+T, +E> = Ok(value: T) | Err(error: E)

  /** One variant per exception the services throw, carrying the values their
      messages interpolate. */
  datatype Error =
    | PlayerNotFound(playerId: Id)              // NotFoundException from the player store
    | PlayerNotAvailable                        // 'Player is not available for auction'
    | NoActiveAuction                           // 'No active auction'
    | NotCurrentPlayer                          // 'This player is not currently being auctioned'
    | BidNotHigher(currentHighest: nat)         // 'Bid must be higher than current highest bid of …'
    | InsufficientBidBudget                     // 'Insufficient budget for this bid'
    | TeamNotFound(teamId: Id)                  // 'Team with ID … not found'
    | InsufficientBudget(budget: int, price: nat) // 'Insufficient budget. Team has …, but player costs …'
  {
    /** NotFoundException (HTTP 404); every other variant is a BadRequestException (HTTP 400). */
    predicate IsNotFound() {
      PlayerNotFound? || TeamNotFound?
    }
  }
}
