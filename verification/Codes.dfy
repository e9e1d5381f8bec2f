/** The closed result catalogue of the profile layer. */
module Codes {

  datatype InvalidCode =
    | AmbiguousSignatures
    | InvalidTimeRange
    | CreatedInFuture
    | SignatureExpired
    | SignatureTooOld
    | LifetimeExceeded
    | ReplayDetected
    | OtherInvalid(name: string)

  datatype UnverifiedCode =
    | ResourceLimit
    | ReplayStoreUnavailable
    | PerKeyQuotaExceeded
    | ClockUnavailable
    | OtherUnverified(name: string)

  /** A code can only be paired with the status it belongs to. */
  datatype Rejection = Invalid(invalid: InvalidCode) | Unverified(unverified: UnverifiedCode)

  datatype StoreOutcome = Accepted | Replayed | Unavailable | QuotaExceeded
}
