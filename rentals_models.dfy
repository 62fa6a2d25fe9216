/** The rows the rental lifecycle works on: a bike of the catalog and a rental
    transaction linking a user to a bike. */
module RentalModels {
  import opened Wrappers
  import Decimal

  type UserId = nat
  type BikeId = nat
  type RentalId = nat

  /** A point in time, in microseconds since an arbitrary epoch
      (the resolution of a Django `DateTimeField`). */
  type Instant = int

  /** An amount of money in cents (a `DecimalField` with two decimal places). */
  type Cents = int

  /** A catalog bike. Only the fields the rental lifecycle reads or writes are
      kept; `is_available` defaults to true when a bike is created. */
  datatype Bike = Bike(name: string, pricePerHour: Cents, isAvailable: bool)

  /** A rental transaction. A NULL `endTime` means the rental is still active;
      `totalCost` stays NULL until the rental is completed. */
  datatype Rental = Rental(
    user: UserId,
    bike: BikeId,
    startTime: Instant,
    endTime: Option<Instant>,
    totalCost: Option<Cents>)
  {
    /** The rental has not been returned yet. */
    predicate IsActive()
    {
      endTime.None?
    }
  }

  /** A rental row whose cost is recorded exactly when it has ended. */
  predicate WellFormed(r: Rental)
  {
    r.endTime.None? <==> r.totalCost.None?
  }

  /** The row inserted when a bike is rented: `start_time` is stamped with the
      moment of creation (`auto_now_add`), never supplied by the caller, and
      neither the end time nor the cost is set. */
  function NewRental(user: UserId, bike: BikeId, now: Instant): (r: Rental)
    ensures r.IsActive() && WellFormed(r)
    ensures r.user == user && r.bike == bike && r.startTime == now
  {
    Rental(user, bike, now, None, None)
  }

  const RentalPrefix: string := "Rental "
  const ByWord: string := " by "

  /** The string form of a rental, "Rental {id} by {username}". The id can be
      read back from the digits between the prefix and " by ". */
  function RentalLabel(id: RentalId, username: string): (s: string)
    ensures |s| == |RentalPrefix| + |Decimal.NatToString(id)| + |ByWord| + |username|
    ensures s[..|RentalPrefix|] == RentalPrefix
    ensures s[|s| - |username| - |ByWord|..|s| - |username|] == ByWord
    ensures s[|s| - |username|..] == username
    ensures var digits := s[|RentalPrefix|..|s| - |username| - |ByWord|];
            Decimal.AllDigits(digits) && Decimal.ParseNat(digits) == id
  {
    var digits := Decimal.NatToString(id);
    Decimal.ParseNatToString(id);
    var s := RentalPrefix + digits + ByWord + username;
    assert s[|RentalPrefix|..|s| - |username| - |ByWord|] == digits;
    s
  }
}
