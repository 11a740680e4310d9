/** Optional values and the two exception kinds the facade throws. */
module Outcomes {

  /** A Java reference that may be null. */
  datatype Option<T> = None | Some(value: T)

  /** The message of each exception the facade and the Offer entity throw. */
  datatype Reason =
    | BlankName(entity: string)
    | InvalidId(param: string)
    | PriceRequired
    | NegativePrice
    | CategoryIdsRequired
    | NullCategory
    | AssociationNotFound(id: int)
    | MemberNotFound(id: int)
    | ContactNotFound(id: int)
    | OfferNotFound(id: int)
    | DemandNotFound(id: int)
    | CategoriesNotFound(missing: seq<int>)
    | ContactHasNoAssociation
    | OfferNotOpen
    | AlreadyPending
    | OnlyPendingCancellable
    | DemandHasNoOffer
    | NotAllowedToValidate

  /** IllegalArgumentException (bad input) and IllegalStateException (missing entity or a rule). */
  datatype Failure = IllegalArgument(reason: Reason) | IllegalState(reason: Reason)

  /** The value an operation returns, or the exception it throws. */
  datatype Result<T> = Ok(value: T) | Err(error: Failure)
}
