/** The `auth_time` check behind a requested `max_age` (src/token/verify.rs). */
module AuthTime {
  import opened Wrappers
  import opened Time

  /** The claim as JSON: absent, not an unsigned 64-bit integer, or such an integer. */
  datatype Claim = Absent | NotUnsigned | Seconds(n: nat)

  datatype AuthTimeError = ClaimRequired | NotAnInteger | OutOfRange | InTheFuture | TooOld

  /** Every addition is checked; a sum that does not fit skips its comparison. */
  function CheckAuthTime(maxAge: Option<Duration>, claim: Claim, now: SystemTime, skew: Duration)
    : Result<(), AuthTimeError>
  {
    if maxAge.None? then Ok(())
    else if claim.Absent? then Err(ClaimRequired)
    else if claim.NotUnsigned? then Err(NotAnInteger)
    else
      match SystemCheckedAdd(0, claim.n * SECOND)
      case None => Err(OutOfRange)
      case Some(authTime) =>
        var latest := SystemCheckedAdd(now, skew);
        if latest.Some? && authTime > latest.value then Err(InTheFuture)
        else
          var expiry := SystemCheckedAdd(authTime, maxAge.value);
          var deadline := if expiry.Some? then SystemCheckedAdd(expiry.value, skew) else None;
          if deadline.Some? && now > deadline.value then Err(TooOld) else Ok(())
  }

  /** Accepted are exactly the representable values within the window, computed without any bound. */
  lemma AcceptsExactlyTheWindow(maxAge: Duration, claim: Claim, now: SystemTime, skew: Duration)
    ensures CheckAuthTime(Some(maxAge), claim, now, skew).Ok?
       <==> claim.Seconds? && claim.n * SECOND <= MAX_INSTANT
            && now - maxAge - skew <= claim.n * SECOND <= now + skew
    ensures var r := CheckAuthTime(Some(maxAge), claim, now, skew);
      && (r == Err(ClaimRequired) <==> claim.Absent?)
      && (r == Err(NotAnInteger) <==> claim.NotUnsigned?)
      && (r == Err(OutOfRange) <==> claim.Seconds? && claim.n * SECOND > MAX_INSTANT)
      && (r == Err(InTheFuture) <==> claim.Seconds? && now + skew < claim.n * SECOND <= MAX_INSTANT)
      && (r == Err(TooOld) <==> claim.Seconds? && claim.n * SECOND < now - maxAge - skew)
    ensures CheckAuthTime(None, claim, now, skew) == Ok(())
  {
  }
}
