/** The leader's read lease: reads are served locally until the lease expires. The clock is a parameter. */
module Lease {
  const LEASE_DURATION_MS: int := 1000

  /** A lease expiring at `expiresAt` is valid at `now` while time remains. */
  predicate LeaseValid(expiresAt: int, now: int)
  {
    expiresAt - now > 0
  }

  /** The time left on a lease, never negative; positive exactly while the lease is valid. */
  function Remaining(expiresAt: int, now: int): (r: int)
    ensures r >= 0
    ensures r > 0 <==> LeaseValid(expiresAt, now)
    ensures LeaseValid(expiresAt, now) ==> r == expiresAt - now
  {
    if expiresAt - now > 0 then expiresAt - now else 0
  }

  /** A lease renewed at `renewedAt` is valid at `now` exactly before a full lease duration has passed. */
  lemma RenewedLeaseValidity(renewedAt: int, now: int)
    ensures LeaseValid(renewedAt + LEASE_DURATION_MS, now) <==> now < renewedAt + LEASE_DURATION_MS
  {
  }

  /** A lease that was never renewed, or was invalidated, is invalid at every time from 0 on. */
  lemma ClearedLeaseInvalid(now: int)
    requires now >= 0
    ensures !LeaseValid(0, now) && Remaining(0, now) == 0
  {
  }

  class ReadLease {
    var leaseExpiresAt: int

    constructor ()
      ensures leaseExpiresAt == 0
    {
      leaseExpiresAt := 0;
    }

    method RenewLease(now: int)
      modifies this
      ensures leaseExpiresAt == now + LEASE_DURATION_MS
    {
      leaseExpiresAt := now + LEASE_DURATION_MS;
    }

    function IsValid(now: int): (b: bool)
      reads this
      ensures b <==> now < leaseExpiresAt
    {
      LeaseValid(leaseExpiresAt, now)
    }

    method Invalidate()
      modifies this
      ensures leaseExpiresAt == 0
    {
      leaseExpiresAt := 0;
    }

    function GetRemainingMs(now: int): (r: int)
      reads this
      ensures r >= 0
      ensures r > 0 <==> IsValid(now)
      ensures IsValid(now) ==> now + r == leaseExpiresAt
    {
      Remaining(leaseExpiresAt, now)
    }
  }
}
