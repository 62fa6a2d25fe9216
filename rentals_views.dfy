/** The rental lifecycle: renting a bike and returning it, over a store that
    holds the bike table and the rental table. Each request is one atomic step.
    The step functions give the new store and the outcome of a request. The class
    `RentalStore` makes the same updates in place. */
module RentalViews {
  import opened Wrappers
  import opened RentalModels

  // ---------------------------------------------------------------------------
  // Billing
  // ---------------------------------------------------------------------------

  const MicrosPerHour: int := 3_600_000_000

  /** Billable hours for an elapsed time: the number of whole hours elapsed,
      plus one. An exact multiple of an hour therefore still bills one extra
      hour. */
  function BilledHours(elapsed: int): (h: int)
    ensures (h - 1) * MicrosPerHour <= elapsed < h * MicrosPerHour
    ensures elapsed >= 0 ==> h >= 1
  {
    elapsed / MicrosPerHour + 1
  }

  /** Cost of a rental that ran from `start` to `end` at `pricePerHour`. */
  function RentalCost(start: Instant, end: Instant, pricePerHour: Cents): Cents
  {
    BilledHours(end - start) * pricePerHour
  }

  /** Rounding up to the next full hour, with a minimum of one hour: the rule
      the comment beside the billing line speaks of. */
  function CeilingHours(elapsed: nat): (h: nat)
    ensures h >= 1
    ensures elapsed > 0 ==> (h - 1) * MicrosPerHour < elapsed <= h * MicrosPerHour
  {
    if elapsed == 0 then 1 else (elapsed + MicrosPerHour - 1) / MicrosPerHour
  }

  /** The implemented rule agrees with rounding up except on positive exact
      multiples of an hour, where it bills one hour more. */
  lemma BilledHoursVersusCeiling(elapsed: nat)
    ensures BilledHours(elapsed) == CeilingHours(elapsed) <==> elapsed == 0 || elapsed % MicrosPerHour != 0
    ensures BilledHours(elapsed) == CeilingHours(elapsed)
                                    + (if elapsed > 0 && elapsed % MicrosPerHour == 0 then 1 else 0)
  {
    var h := BilledHours(elapsed);
    var c := CeilingHours(elapsed);
    if elapsed > 0 {
      if elapsed % MicrosPerHour == 0 {
        assert elapsed == (h - 1) * MicrosPerHour;
        assert c == h - 1;
      } else {
        assert (h - 1) * MicrosPerHour < elapsed < h * MicrosPerHour;
        assert c == h;
      }
    }
  }

  /** The boundary cases of the billing rule. */
  lemma BillingBoundaries()
    ensures BilledHours(0) == 1
    ensures BilledHours(MicrosPerHour - 1) == 1
    ensures BilledHours(MicrosPerHour) == 2
    ensures BilledHours(MicrosPerHour + 1) == 2
  {
  }

  // ---------------------------------------------------------------------------
  // The store and its invariants
  // ---------------------------------------------------------------------------

  /** The bike and rental tables, with the next free primary key of each. */
  datatype Store = Store(
    bikes: map<BikeId, Bike>,
    rentals: map<RentalId, Rental>,
    nextBikeId: nat,
    nextRentalId: nat)

  /** The error outcomes of the two requests. */
  datatype RentalError = NotFound | ActiveRentalExists | BikeUnavailable | AlreadyCompleted

  datatype Outcome<T> = Ok(value: T) | Err(error: RentalError)

  /** The store after a request, and what the request answered. */
  datatype Step<T> = Step(store: Store, outcome: Outcome<T>)

  /** `user` has a rental with no end time. */
  predicate HasActiveRental(rentals: map<RentalId, Rental>, user: UserId)
  {
    exists id :: id in rentals && rentals[id].user == user && rentals[id].IsActive()
  }

  /** Some active rental references `bike`. */
  predicate BikeRented(rentals: map<RentalId, Rental>, bike: BikeId)
  {
    exists id :: id in rentals && rentals[id].bike == bike && rentals[id].IsActive()
  }

  /** Every rental references an existing bike (the foreign key). */
  ghost predicate ReferencesExist(s: Store)
  {
    forall id :: id in s.rentals ==> s.rentals[id].bike in s.bikes
  }

  /** Every primary key in use is below the next one to be handed out. */
  ghost predicate KeysBelowNext(s: Store)
  {
    && (forall id :: id in s.rentals ==> id < s.nextRentalId)
    && (forall b :: b in s.bikes ==> b < s.nextBikeId)
  }

  /** Every rental's cost is set exactly when its end time is. */
  ghost predicate RowsWellFormed(s: Store)
  {
    forall id :: id in s.rentals ==> WellFormed(s.rentals[id])
  }

  /** Each user has at most one active rental. */
  ghost predicate OneActivePerUser(rentals: map<RentalId, Rental>)
  {
    forall i, j ::
      (i in rentals && j in rentals && rentals[i].IsActive() && rentals[j].IsActive()
       && rentals[i].user == rentals[j].user) ==> i == j
  }

  /** Each bike has at most one active rental. */
  ghost predicate OneActivePerBike(rentals: map<RentalId, Rental>)
  {
    forall i, j ::
      (i in rentals && j in rentals && rentals[i].IsActive() && rentals[j].IsActive()
       && rentals[i].bike == rentals[j].bike) ==> i == j
  }

  /** A bike is unavailable exactly when an active rental references it. */
  ghost predicate FlagsMirrorRentals(s: Store)
  {
    forall b :: b in s.bikes ==> (!s.bikes[b].isAvailable <==> BikeRented(s.rentals, b))
  }

  /** The store invariant. */
  ghost predicate Consistent(s: Store)
  {
    && ReferencesExist(s)
    && KeysBelowNext(s)
    && RowsWellFormed(s)
    && OneActivePerUser(s.rentals)
    && OneActivePerBike(s.rentals)
    && FlagsMirrorRentals(s)
  }

  function EmptyStore(): (s: Store)
    ensures Consistent(s)
  {
    Store(map[], map[], 0, 0)
  }

  // ---------------------------------------------------------------------------
  // Creating a bike (the catalog side; its flag defaults to available)
  // ---------------------------------------------------------------------------

  function AddBikeStep(s: Store, name: string, pricePerHour: Cents): (t: Step<BikeId>)
    ensures t.outcome.Ok? && (KeysBelowNext(s) ==> t.outcome.value !in s.bikes)
    ensures t.store.bikes == s.bikes[t.outcome.value := Bike(name, pricePerHour, true)]
    ensures t.store.rentals == s.rentals
  {
    var id := s.nextBikeId;
    Step(s.(bikes := s.bikes[id := Bike(name, pricePerHour, true)], nextBikeId := id + 1), Ok(id))
  }

  lemma AddBikeKeepsConsistent(s: Store, name: string, pricePerHour: Cents)
    requires Consistent(s)
    ensures Consistent(AddBikeStep(s, name, pricePerHour).store)
  {
    var id := AddBikeStep(s, name, pricePerHour).outcome.value;
    assert forall r :: r in s.rentals ==> s.rentals[r].bike != id;
  }

  // ---------------------------------------------------------------------------
  // create_rental
  // ---------------------------------------------------------------------------

  /** Renting `bikeId` for `user` at time `now`. The checks run in a fixed
      order: the bike must exist, the user must have no active rental, and the
      bike must be available. A check that fails leaves the store unchanged. */
  function CreateRentalStep(s: Store, user: UserId, bikeId: BikeId, now: Instant): (t: Step<RentalId>)
    ensures t.outcome.Err? ==> t.store == s
    ensures t.outcome == Err(NotFound) <==> bikeId !in s.bikes
    ensures t.outcome == Err(ActiveRentalExists) <==>
              bikeId in s.bikes && HasActiveRental(s.rentals, user)
    ensures t.outcome == Err(BikeUnavailable) <==>
              bikeId in s.bikes && !HasActiveRental(s.rentals, user) && !s.bikes[bikeId].isAvailable
    ensures t.outcome.Ok? <==>
              bikeId in s.bikes && !HasActiveRental(s.rentals, user) && s.bikes[bikeId].isAvailable
    ensures t.outcome.Ok? ==>
              && bikeId in s.bikes
              && (KeysBelowNext(s) ==> t.outcome.value !in s.rentals)
              && t.store.rentals == s.rentals[t.outcome.value := NewRental(user, bikeId, now)]
              && t.store.bikes == s.bikes[bikeId := s.bikes[bikeId].(isAvailable := false)]
  {
    if bikeId !in s.bikes then Step(s, Err(NotFound))
    else if HasActiveRental(s.rentals, user) then Step(s, Err(ActiveRentalExists))
    else if !s.bikes[bikeId].isAvailable then Step(s, Err(BikeUnavailable))
    else
      var id := s.nextRentalId;
      Step(s.(rentals := s.rentals[id := NewRental(user, bikeId, now)],
              bikes := s.bikes[bikeId := s.bikes[bikeId].(isAvailable := false)],
              nextRentalId := id + 1),
           Ok(id))
  }

  /** Renting keeps the store invariant: in particular each user still has at
      most one active rental and the availability flags still mirror the
      active rentals. */
  lemma CreateRentalKeepsConsistent(s: Store, user: UserId, bikeId: BikeId, now: Instant)
    requires Consistent(s)
    ensures Consistent(CreateRentalStep(s, user, bikeId, now).store)
  {
    var t := CreateRentalStep(s, user, bikeId, now);
    if t.outcome.Ok? {
      var id := t.outcome.value;
      var s' := t.store;
      assert BikeRented(s'.rentals, bikeId) by {
        assert s'.rentals[id].bike == bikeId && s'.rentals[id].IsActive();
      }
      // The guards passed: no active rental of the user, none on the bike.
      assert forall r :: r in s.rentals && s.rentals[r].IsActive() ==> s.rentals[r].user != user;
      assert forall r :: r in s.rentals && s.rentals[r].IsActive() ==> s.rentals[r].bike != bikeId;
      forall b | b in s'.bikes && b != bikeId
        ensures !s'.bikes[b].isAvailable <==> BikeRented(s'.rentals, b)
      {
        if BikeRented(s'.rentals, b) {
          var r :| r in s'.rentals && s'.rentals[r].bike == b && s'.rentals[r].IsActive();
          assert r != id && r in s.rentals;
        }
        if BikeRented(s.rentals, b) {
          var r :| r in s.rentals && s.rentals[r].bike == b && s.rentals[r].IsActive();
          assert s'.rentals[r] == s.rentals[r];
        }
      }
    }
  }

  // ---------------------------------------------------------------------------
  // return_bike
  // ---------------------------------------------------------------------------

  /** Returning rental `rentalId` on behalf of `user` at time `now`. The
      rental must exist and belong to `user`, otherwise the answer is
      not-found; a rental that has already ended is reported and left alone.
      Otherwise its end time is stamped, its cost is billed and its bike becomes
      available again; the answer carries the cost. */
  function ReturnBikeStep(s: Store, user: UserId, rentalId: RentalId, now: Instant): (t: Step<Cents>)
    requires ReferencesExist(s)
    ensures t.outcome.Err? ==> t.store == s
    ensures t.outcome == Err(NotFound) <==>
              rentalId !in s.rentals || s.rentals[rentalId].user != user
    ensures t.outcome == Err(AlreadyCompleted) <==>
              rentalId in s.rentals && s.rentals[rentalId].user == user && !s.rentals[rentalId].IsActive()
    ensures t.outcome.Ok? <==>
              rentalId in s.rentals && s.rentals[rentalId].user == user && s.rentals[rentalId].IsActive()
    ensures t.outcome.Ok? ==>
              var r := s.rentals[rentalId];
              var bike := s.bikes[r.bike];
              && r.user == user && r.IsActive()
              && t.outcome.value == RentalCost(r.startTime, now, bike.pricePerHour)
              && t.store.rentals == s.rentals[rentalId := r.(endTime := Some(now), totalCost := Some(t.outcome.value))]
              && t.store.bikes == s.bikes[r.bike := bike.(isAvailable := true)]
              && t.store.nextBikeId == s.nextBikeId && t.store.nextRentalId == s.nextRentalId
  {
    if rentalId !in s.rentals || s.rentals[rentalId].user != user then Step(s, Err(NotFound))
    else
      var r := s.rentals[rentalId];
      if !r.IsActive() then Step(s, Err(AlreadyCompleted))
      else
        var bike := s.bikes[r.bike];
        var cost := BilledHours(now - r.startTime) * bike.pricePerHour;
        Step(s.(rentals := s.rentals[rentalId := r.(endTime := Some(now), totalCost := Some(cost))],
                bikes := s.bikes[r.bike := bike.(isAvailable := true)]),
             Ok(cost))
  }

  /** Returning keeps the store invariant. */
  lemma ReturnBikeKeepsConsistent(s: Store, user: UserId, rentalId: RentalId, now: Instant)
    requires Consistent(s)
    ensures Consistent(ReturnBikeStep(s, user, rentalId, now).store)
  {
    var t := ReturnBikeStep(s, user, rentalId, now);
    if t.outcome.Ok? {
      var s' := t.store;
      var b0 := s.rentals[rentalId].bike;
      forall r | r in s'.rentals && r != rentalId && s'.rentals[r].IsActive()
        ensures s'.rentals[r].bike != b0
      {
        assert s'.rentals[r] == s.rentals[r];
      }
      assert !BikeRented(s'.rentals, b0);
      forall b | b in s'.bikes && b != b0
        ensures !s'.bikes[b].isAvailable <==> BikeRented(s'.rentals, b)
      {
        if BikeRented(s'.rentals, b) {
          var r :| r in s'.rentals && s'.rentals[r].bike == b && s'.rentals[r].IsActive();
          assert r != rentalId && s.rentals[r] == s'.rentals[r];
        }
        if BikeRented(s.rentals, b) {
          var r :| r in s.rentals && s.rentals[r].bike == b && s.rentals[r].IsActive();
          assert r != rentalId;
          assert s'.rentals[r] == s.rentals[r];
        }
      }
    }
  }

  /** A rental that has just been returned cannot be returned again: the
      second request reports it as completed and keeps the end time and cost
      of the first. */
  lemma ReturnTwiceIsNoOp(s: Store, user: UserId, rentalId: RentalId, now: Instant, later: Instant)
    requires Consistent(s)
    requires ReturnBikeStep(s, user, rentalId, now).outcome.Ok?
    ensures var first := ReturnBikeStep(s, user, rentalId, now).store;
            ReferencesExist(first) && ReturnBikeStep(first, user, rentalId, later) == Step(first, Err(AlreadyCompleted))
  {
    ReturnBikeKeepsConsistent(s, user, rentalId, now);
  }

  /** Returning a rental at or after its start bills at least one hour. */
  lemma ReturnBillsAtLeastOneHour(s: Store, user: UserId, rentalId: RentalId, now: Instant)
    requires ReferencesExist(s)
    requires rentalId in s.rentals && now >= s.rentals[rentalId].startTime
    requires ReturnBikeStep(s, user, rentalId, now).outcome.Ok?
    ensures var price := s.bikes[s.rentals[rentalId].bike].pricePerHour;
            var cost := ReturnBikeStep(s, user, rentalId, now).outcome.value;
            price >= 0 ==> cost >= price
  {
    var r := s.rentals[rentalId];
    var price := s.bikes[r.bike].pricePerHour;
    var h := BilledHours(now - r.startTime);
    if price >= 0 {
      assert h * price == price + (h - 1) * price;
      assert (h - 1) * price >= 0;
    }
  }

  /** A user rents bike X (5.00 an hour), is refused a second bike Y while
      riding, and returns X ninety minutes later: two hours are billed, X is
      available again and Y was never touched. */
  lemma RentRefuseReturnScenario(t0: Instant)
    ensures var s0 := Store(map[0 := Bike("X", 500, true), 1 := Bike("Y", 500, true)], map[], 2, 0);
            var rent := CreateRentalStep(s0, 7, 0, t0);
            var second := CreateRentalStep(rent.store, 7, 1, t0 + 60_000_000);
            && rent.outcome == Ok(0)
            && second == Step(rent.store, Err(ActiveRentalExists))
            && ReferencesExist(second.store)
            && var back := ReturnBikeStep(second.store, 7, 0, t0 + 90 * 60_000_000);
               && back.outcome == Ok(1000)
               && back.store.bikes[0].isAvailable
               && back.store.bikes[1] == s0.bikes[1]
  {
    var s0 := Store(map[0 := Bike("X", 500, true), 1 := Bike("Y", 500, true)], map[], 2, 0);
    var rent := CreateRentalStep(s0, 7, 0, t0);
    assert HasActiveRental(rent.store.rentals, 7) by {
      assert rent.store.rentals[0].user == 7;
    }
    assert BilledHours(90 * 60_000_000) == 2;
  }

  // ---------------------------------------------------------------------------
  // Cascade deletes (rentals reference users and bikes with on_delete=CASCADE)
  // ---------------------------------------------------------------------------

  /** The rentals that do not reference `bike`. */
  function RentalsNotOfBike(rentals: map<RentalId, Rental>, bike: BikeId): (m: map<RentalId, Rental>)
    ensures forall id :: id in m <==> id in rentals && rentals[id].bike != bike
    ensures forall id :: id in m ==> m[id] == rentals[id]
  {
    map id | id in rentals && rentals[id].bike != bike :: rentals[id]
  }

  /** The rentals that do not belong to `user`. */
  function RentalsNotOfUser(rentals: map<RentalId, Rental>, user: UserId): (m: map<RentalId, Rental>)
    ensures forall id :: id in m <==> id in rentals && rentals[id].user != user
    ensures forall id :: id in m ==> m[id] == rentals[id]
  {
    map id | id in rentals && rentals[id].user != user :: rentals[id]
  }

  /** Deleting a bike deletes it and every rental that references it. */
  function DeleteBikeStep(s: Store, bike: BikeId): (s': Store)
    ensures bike !in s'.bikes && s'.bikes == s.bikes - {bike}
    ensures forall id :: id in s'.rentals ==> s'.rentals[id].bike != bike
    ensures s'.rentals == RentalsNotOfBike(s.rentals, bike)
  {
    s.(bikes := s.bikes - {bike}, rentals := RentalsNotOfBike(s.rentals, bike))
  }

  lemma DeleteBikeKeepsConsistent(s: Store, bike: BikeId)
    requires Consistent(s)
    ensures Consistent(DeleteBikeStep(s, bike))
  {
    var s' := DeleteBikeStep(s, bike);
    forall b | b in s'.bikes
      ensures !s'.bikes[b].isAvailable <==> BikeRented(s'.rentals, b)
    {
      if BikeRented(s.rentals, b) {
        var r :| r in s.rentals && s.rentals[r].bike == b && s.rentals[r].IsActive();
        assert r in s'.rentals;
      }
    }
  }

  /** Deleting a user as the database cascade does it: the user's rentals are
      deleted, and nothing else changes. */
  function CascadeDeleteUser(s: Store, user: UserId): (s': Store)
    ensures s'.rentals == RentalsNotOfUser(s.rentals, user)
    ensures s'.bikes == s.bikes
  {
    s.(rentals := RentalsNotOfUser(s.rentals, user))
  }

  /** A user who is deleted while renting leaves the rented bike marked
      unavailable with no active rental behind it. */
  lemma CascadeDeleteUserStrandsBike()
    ensures var s := Store(map[0 := Bike("City", 700, false)], map[0 := NewRental(1, 0, 0)], 1, 1);
            Consistent(s) && !Consistent(CascadeDeleteUser(s, 1))
  {
    var s := Store(map[0 := Bike("City", 700, false)], map[0 := NewRental(1, 0, 0)], 1, 1);
    assert BikeRented(s.rentals, 0) by { assert s.rentals[0].bike == 0; }
    var s' := CascadeDeleteUser(s, 1);
    assert s'.rentals == map[];
    assert !BikeRented(s'.rentals, 0);
  }

  /** `bike` is held by an active rental of `user`. */
  predicate HeldBy(rentals: map<RentalId, Rental>, user: UserId, bike: BikeId)
  {
    exists id :: id in rentals && rentals[id].user == user && rentals[id].bike == bike && rentals[id].IsActive()
  }

  /** Deleting a user: the user's rentals are deleted and the bike the user
      was riding, if any, becomes available again. */
  function DeleteUserStep(s: Store, user: UserId): (s': Store)
    ensures forall id :: id in s'.rentals ==> s'.rentals[id].user != user
    ensures s'.rentals == RentalsNotOfUser(s.rentals, user)
    ensures s'.bikes.Keys == s.bikes.Keys
    ensures forall b :: b in s.bikes ==>
              s'.bikes[b] == if HeldBy(s.rentals, user, b) then s.bikes[b].(isAvailable := true) else s.bikes[b]
  {
    var bikes := map b | b in s.bikes ::
      if HeldBy(s.rentals, user, b) then s.bikes[b].(isAvailable := true) else s.bikes[b];
    s.(bikes := bikes, rentals := RentalsNotOfUser(s.rentals, user))
  }

  lemma DeleteUserKeepsConsistent(s: Store, user: UserId)
    requires Consistent(s)
    ensures Consistent(DeleteUserStep(s, user))
  {
    var s' := DeleteUserStep(s, user);
    forall b | b in s'.bikes
      ensures !s'.bikes[b].isAvailable <==> BikeRented(s'.rentals, b)
    {
      if BikeRented(s'.rentals, b) {
        var r :| r in s'.rentals && s'.rentals[r].bike == b && s'.rentals[r].IsActive();
        assert r in s.rentals && s.rentals[r].user != user;
        forall q | q in s.rentals && s.rentals[q].user == user && s.rentals[q].IsActive()
          ensures s.rentals[q].bike != b
        {
        }
        assert BikeRented(s.rentals, b) && !HeldBy(s.rentals, user, b);
      }
      if BikeRented(s.rentals, b) && !HeldBy(s.rentals, user, b) {
        var r :| r in s.rentals && s.rentals[r].bike == b && s.rentals[r].IsActive();
        assert s.rentals[r].user != user;
        assert r in s'.rentals;
      }
    }
  }

  // ---------------------------------------------------------------------------
  // The store as an object updated in place
  // ---------------------------------------------------------------------------

  class RentalStore {
    var bikes: map<BikeId, Bike>
    var rentals: map<RentalId, Rental>
    var nextBikeId: nat
    var nextRentalId: nat

    /** The tables as a value. */
    function State(): Store
      reads this
    {
      Store(bikes, rentals, nextBikeId, nextRentalId)
    }

    ghost predicate Valid()
      reads this
    {
      Consistent(State())
    }

    constructor ()
      ensures Valid() && State() == EmptyStore()
    {
      bikes, rentals := map[], map[];
      nextBikeId, nextRentalId := 0, 0;
    }

    method AddBike(name: string, pricePerHour: Cents) returns (id: BikeId)
      requires Valid()
      modifies this
      ensures Valid()
      ensures Step(State(), Ok(id)) == AddBikeStep(old(State()), name, pricePerHour)
    {
      AddBikeKeepsConsistent(State(), name, pricePerHour);
      id := nextBikeId;
      bikes := bikes[id := Bike(name, pricePerHour, true)];
      nextBikeId := id + 1;
    }

    method CreateRental(user: UserId, bikeId: BikeId, now: Instant) returns (outcome: Outcome<RentalId>)
      requires Valid()
      modifies this
      ensures Valid()
      ensures Step(State(), outcome) == CreateRentalStep(old(State()), user, bikeId, now)
    {
      CreateRentalKeepsConsistent(State(), user, bikeId, now);
      if bikeId !in bikes {
        return Err(NotFound);
      }
      var bike := bikes[bikeId];
      var hasActiveRental := HasActiveRental(rentals, user);
      if hasActiveRental {
        return Err(ActiveRentalExists);
      }
      if bike.isAvailable {
        var id := nextRentalId;
        rentals := rentals[id := NewRental(user, bikeId, now)];
        nextRentalId := id + 1;
        bikes := bikes[bikeId := bike.(isAvailable := false)];
        outcome := Ok(id);
      } else {
        outcome := Err(BikeUnavailable);
      }
    }

    method ReturnBike(user: UserId, rentalId: RentalId, now: Instant) returns (outcome: Outcome<Cents>)
      requires Valid()
      modifies this
      ensures Valid()
      ensures Step(State(), outcome) == ReturnBikeStep(old(State()), user, rentalId, now)
    {
      ReturnBikeKeepsConsistent(State(), user, rentalId, now);
      if rentalId !in rentals || rentals[rentalId].user != user {
        return Err(NotFound);
      }
      var rental := rentals[rentalId];
      if rental.IsActive() {
        var bike := bikes[rental.bike];
        var hours := BilledHours(now - rental.startTime);
        var cost := hours * bike.pricePerHour;
        bikes := bikes[rental.bike := bike.(isAvailable := true)];
        rentals := rentals[rentalId := rental.(endTime := Some(now), totalCost := Some(cost))];
        outcome := Ok(cost);
      } else {
        outcome := Err(AlreadyCompleted);
      }
    }

    method DeleteBike(bike: BikeId)
      requires Valid()
      modifies this
      ensures Valid()
      ensures State() == DeleteBikeStep(old(State()), bike)
    {
      DeleteBikeKeepsConsistent(State(), bike);
      bikes := bikes - {bike};
      rentals := RentalsNotOfBike(rentals, bike);
    }

    /** Deletes `user` and the user's rentals, freeing a bike the user still
        held. This is the corrected delete; the cascade as the schema declares
        it, which leaves such a bike unavailable, is `CascadeDeleteUser`. */
    method DeleteUser(user: UserId)
      requires Valid()
      modifies this
      ensures Valid()
      ensures State() == DeleteUserStep(old(State()), user)
    {
      DeleteUserKeepsConsistent(State(), user);
      bikes := map b | b in bikes ::
        if HeldBy(rentals, user, b) then bikes[b].(isAvailable := true) else bikes[b];
      rentals := RentalsNotOfUser(rentals, user);
    }
  }
}
