/** The spot lifecycle of the user routes: reserve (available to reserved), occupy (reserved to
    occupied) and release (occupied to available). Each request is one atomic step: when it
    fails, the store is returned unchanged, as the route's rollback leaves it. */
module Lifecycle {
  import opened Common
  import opened LoginId
  import opened Store

  /** The account occupies or has reserved some spot, in any lot. */
  predicate HoldsAny(spots: map<SpotId, Spot>, u: UserId) {
    HoldsWith(spots, u, Occupied) || HoldsWith(spots, u, Reserved)
  }

  /** Spot `s` exists, has status `st` and `u` as occupant. */
  predicate HeldBy(spots: map<SpotId, Spot>, s: SpotId, u: UserId, st: Status) {
    s in spots && spots[s].status == st && spots[s].userId == Some(u)
  }

  /** A successful reservation: `s` is an available spot of the lot with the least number; it
      is now reserved by `u`, one active reservation at the lot's current price was added under
      the next id, and nothing else changed. */
  ghost predicate ReservedLowest(db: Db, db': Db, u: UserId, lotId: LotId, now: int, s: SpotId) {
    && lotId in db.lots
    && AvailableIn(db.spots, lotId, s)
    && (forall o: SpotId :: o < db.nextSpot && AvailableIn(db.spots, lotId, o) ==> db.spots[s].number <= db.spots[o].number)
    && db' == db.(spots := db.spots[s := db.spots[s].(status := Reserved, userId := Some(u))],
                  reservations := db.reservations[db.nextRes := Reservation(s, u, now, None, db.lots[lotId].price)],
                  nextRes := db.nextRes + 1)
  }

  /** `reserve_spot`. */
  function Reserve(db: Db, who: Principal, lotId: LotId, now: int): (r: Response)
    ensures r.outcome.Failed? ==> r.after == db
    ensures who.kind == AdminAccount ==> r.outcome == Failed(Forbidden)
    ensures who.kind == UserAccount && HoldsWith(db.spots, who.id, Occupied) ==> r.outcome == Failed(AlreadyOccupying)
    ensures who.kind == UserAccount && !HoldsWith(db.spots, who.id, Occupied) && HoldsWith(db.spots, who.id, Reserved) ==>
              r.outcome == Failed(AlreadyReserved)
    ensures who.kind == UserAccount && !HoldsAny(db.spots, who.id) && lotId !in db.lots ==> r.outcome == Failed(LotNotFound)
    ensures who.kind == UserAccount && !HoldsAny(db.spots, who.id) && lotId in db.lots && !r.outcome.Done? ==>
              r.outcome == Failed(NoAvailableSpot)
    ensures r.outcome.Done? <==>
              && who.kind == UserAccount
              && !HoldsAny(db.spots, who.id)
              && lotId in db.lots
              && exists s: SpotId :: s < db.nextSpot && AvailableIn(db.spots, lotId, s)
    ensures r.outcome.Done? ==> r.outcome.warnings == [] && exists s :: ReservedLowest(db, r.after, who.id, lotId, now, s)
  {
    if who.kind == AdminAccount then Response(db, Failed(Forbidden))
    else if HoldsWith(db.spots, who.id, Occupied) then Response(db, Failed(AlreadyOccupying))
    else if HoldsWith(db.spots, who.id, Reserved) then Response(db, Failed(AlreadyReserved))
    else if lotId !in db.lots then Response(db, Failed(LotNotFound))
    else
      match LowestAvailable(db, lotId)
      case None => Response(db, Failed(NoAvailableSpot))
      case Some(s) =>
        var after := db.(spots := db.spots[s := db.spots[s].(status := Reserved, userId := Some(who.id))],
                         reservations := db.reservations[db.nextRes := Reservation(s, who.id, now, None, db.lots[lotId].price)],
                         nextRes := db.nextRes + 1);
        // the success condition of the contract holds, with `s` as its witness
        assert who.kind == UserAccount && !HoldsAny(db.spots, who.id) && lotId in db.lots;
        assert s < db.nextSpot && AvailableIn(db.spots, lotId, s);
        assert ReservedLowest(db, after, who.id, lotId, now, s);
        Response(after, Done([]))
  }

  /** A successful occupation: `x` is the latest active reservation of spot `s` by `u`; the spot
      is now occupied and that reservation starts now; nothing else changed. */
  ghost predicate Rebased(db: Db, db': Db, s: SpotId, u: UserId, now: int, x: ResId) {
    && s in db.spots
    && ActiveIn(db.reservations, s, u, x)
    && (forall y: ResId :: y < db.nextRes && ActiveIn(db.reservations, s, u, y) ==>
          db.reservations[y].parkingTs <= db.reservations[x].parkingTs)
    && db' == db.(spots := db.spots[s := db.spots[s].(status := Occupied)],
                  reservations := db.reservations[x := db.reservations[x].(parkingTs := now)])
  }

  /** `occupy_spot`. */
  function Occupy(db: Db, who: Principal, spotId: SpotId, now: int): (r: Response)
    ensures r.outcome.Failed? ==> r.after == db
    ensures who.kind == AdminAccount ==> r.outcome == Failed(Forbidden)
    ensures r.outcome.Done? <==>
              && who.kind == UserAccount
              && HeldBy(db.spots, spotId, who.id, Reserved)
              && exists x: ResId :: x < db.nextRes && ActiveIn(db.reservations, spotId, who.id, x)
    ensures r.outcome.Done? ==> r.outcome.warnings == [] && exists x :: Rebased(db, r.after, spotId, who.id, now, x)
    ensures who.kind == UserAccount && HeldBy(db.spots, spotId, who.id, Reserved) && !r.outcome.Done? ==>
              r.outcome == Failed(NoActiveReservation)
    ensures who.kind == UserAccount && HeldBy(db.spots, spotId, who.id, Occupied) ==>
              r.outcome == Failed(AlreadyOccupiedByYou)
    ensures who.kind == UserAccount && spotId !in db.spots ==> r.outcome == Failed(SpotNotFound)
    ensures who.kind == UserAccount && spotId in db.spots && db.spots[spotId].userId != Some(who.id) ==>
              r.outcome == Failed(NotReservedByYou)
  {
    if who.kind == AdminAccount then Response(db, Failed(Forbidden))
    else if spotId !in db.spots then Response(db, Failed(SpotNotFound))
    else if HeldBy(db.spots, spotId, who.id, Reserved) then
      match LatestActive(db, spotId, who.id)
      case None => Response(db, Failed(NoActiveReservation))
      case Some(x) =>
        var after := db.(spots := db.spots[spotId := db.spots[spotId].(status := Occupied)],
                         reservations := db.reservations[x := db.reservations[x].(parkingTs := now)]);
        // the success condition of the contract holds, with `x` as its witness
        assert who.kind == UserAccount && HeldBy(db.spots, spotId, who.id, Reserved);
        assert x < db.nextRes && ActiveIn(db.reservations, spotId, who.id, x);
        assert Rebased(db, after, spotId, who.id, now, x);
        Response(after, Done([]))
    else if HeldBy(db.spots, spotId, who.id, Occupied) then Response(db, Failed(AlreadyOccupiedByYou))
    else Response(db, Failed(NotReservedByYou))
  }

  /** A successful release: `x` is the latest active reservation of spot `s` by `u`; the spot is
      now available without occupant and that reservation left now; nothing else changed. */
  ghost predicate Closed(db: Db, db': Db, s: SpotId, u: UserId, now: int, x: ResId) {
    && s in db.spots
    && ActiveIn(db.reservations, s, u, x)
    && (forall y: ResId :: y < db.nextRes && ActiveIn(db.reservations, s, u, y) ==>
          db.reservations[y].parkingTs <= db.reservations[x].parkingTs)
    && db' == db.(spots := db.spots[s := db.spots[s].(status := Available, userId := None)],
                  reservations := db.reservations[x := db.reservations[x].(leavingTs := Some(now))])
  }

  /** `release_spot`. */
  function Release(db: Db, who: Principal, spotId: SpotId, now: int): (r: Response)
    ensures r.outcome.Failed? ==> r.after == db
    ensures who.kind == AdminAccount ==> r.outcome == Failed(Forbidden)
    ensures r.outcome.Done? <==>
              && who.kind == UserAccount
              && HeldBy(db.spots, spotId, who.id, Occupied)
              && exists x: ResId :: x < db.nextRes && ActiveIn(db.reservations, spotId, who.id, x)
    ensures r.outcome.Done? ==> r.outcome.warnings == [] && exists x :: Closed(db, r.after, spotId, who.id, now, x)
    ensures who.kind == UserAccount && HeldBy(db.spots, spotId, who.id, Occupied) && !r.outcome.Done? ==>
              r.outcome == Failed(NoActiveReservation)
    ensures who.kind == UserAccount && spotId !in db.spots ==> r.outcome == Failed(SpotNotFound)
    ensures who.kind == UserAccount && spotId in db.spots && !HeldBy(db.spots, spotId, who.id, Occupied) ==>
              r.outcome == Failed(NotOccupiedByYou)
  {
    if who.kind == AdminAccount then Response(db, Failed(Forbidden))
    else if spotId !in db.spots then Response(db, Failed(SpotNotFound))
    else if HeldBy(db.spots, spotId, who.id, Occupied) then
      match LatestActive(db, spotId, who.id)
      case None => Response(db, Failed(NoActiveReservation))
      case Some(x) =>
        var after := db.(spots := db.spots[spotId := db.spots[spotId].(status := Available, userId := None)],
                         reservations := db.reservations[x := db.reservations[x].(leavingTs := Some(now))]);
        // the success condition of the contract holds, with `x` as its witness
        assert who.kind == UserAccount && HeldBy(db.spots, spotId, who.id, Occupied);
        assert x < db.nextRes && ActiveIn(db.reservations, spotId, who.id, x);
        assert Closed(db, after, spotId, who.id, now, x);
        Response(after, Done([]))
    else Response(db, Failed(NotOccupiedByYou))
  }

  // ----- the invariants are preserved -----

  /** Under the invariants, an account that holds nothing is nobody's occupant. */
  lemma NotHoldingMeansNoOccupant(db: Db, u: UserId)
    requires OccupantMatchesStatus(db.spots)
    requires !HoldsAny(db.spots, u)
    ensures forall t :: t in db.spots ==> db.spots[t].userId != Some(u)
  {
    forall t | t in db.spots
      ensures db.spots[t].userId != Some(u)
    {
      var sp := db.spots[t];
      assert !(sp.userId == Some(u) && sp.status == Occupied);
      assert !(sp.userId == Some(u) && sp.status == Reserved);
    }
  }

  /** Changing only the status and occupant of existing spots keeps the id, key, numbering and
      naming invariants. */
  lemma StatusChangeKeepsShape(db: Db, db': Db)
    requires IdsFresh(db) && RefsIntact(db) && NumbersWithinMax(db) && NumbersUnique(db.spots) && NamesUnique(db.lots)
    requires db'.lots == db.lots && db'.nextLot == db.nextLot && db'.nextSpot == db.nextSpot
    requires db'.spots.Keys == db.spots.Keys
    requires forall t :: t in db.spots ==> db'.spots[t].lotId == db.spots[t].lotId && db'.spots[t].number == db.spots[t].number
    requires forall x :: x in db'.reservations ==> x < db'.nextRes && db'.reservations[x].spotId in db.spots
    ensures IdsFresh(db') && RefsIntact(db') && NumbersWithinMax(db') && NumbersUnique(db'.spots) && NamesUnique(db'.lots)
  {
  }

  lemma ReserveKeepsShape(db: Db, db': Db, u: UserId, lotId: LotId, now: int, s: SpotId)
    requires Wf(db)
    requires ReservedLowest(db, db', u, lotId, now, s)
    ensures IdsFresh(db') && RefsIntact(db') && NumbersWithinMax(db') && NumbersUnique(db'.spots) && NamesUnique(db'.lots)
  {
    StatusChangeKeepsShape(db, db');
  }

  lemma ReserveKeepsOccupants(db: Db, db': Db, u: UserId, lotId: LotId, now: int, s: SpotId)
    requires Wf(db)
    requires !HoldsAny(db.spots, u)
    requires ReservedLowest(db, db', u, lotId, now, s)
    ensures OccupantMatchesStatus(db'.spots) && OneSpotPerUser(db'.spots)
  {
    NotHoldingMeansNoOccupant(db, u);
  }

  lemma ReserveKeepsActive(db: Db, db': Db, u: UserId, lotId: LotId, now: int, s: SpotId)
    requires Wf(db)
    requires !HoldsAny(db.spots, u)
    requires ReservedLowest(db, db', u, lotId, now, s)
    ensures OneActivePerSpot(db'.reservations) && ActiveIsHeld(db') && HeldHasActive(db')
  {
    assert forall x :: x in db.reservations && IsActive(db.reservations[x]) ==> db.reservations[x].spotId != s;
    assert db.nextRes !in db.reservations;
    forall t | t in db'.spots && db'.spots[t].userId.Some?
      ensures exists x :: ActiveIn(db'.reservations, t, db'.spots[t].userId.value, x)
    {
      if t == s {
        assert ActiveIn(db'.reservations, t, u, db.nextRes);
      } else {
        var x: ResId :| ActiveIn(db.reservations, t, db.spots[t].userId.value, x);
        assert ActiveIn(db'.reservations, t, db'.spots[t].userId.value, x);
      }
    }
  }

  lemma ReservePreservesWf(db: Db, who: Principal, lotId: LotId, now: int)
    requires Wf(db)
    ensures Wf(Reserve(db, who, lotId, now).after)
  {
    var r := Reserve(db, who, lotId, now);
    if r.outcome.Done? {
      var s :| ReservedLowest(db, r.after, who.id, lotId, now, s);
      ReserveKeepsShape(db, r.after, who.id, lotId, now, s);
      ReserveKeepsOccupants(db, r.after, who.id, lotId, now, s);
      ReserveKeepsActive(db, r.after, who.id, lotId, now, s);
    }
  }

  lemma OccupyKeepsOccupants(db: Db, db': Db, s: SpotId, u: UserId, now: int, x: ResId)
    requires Wf(db)
    requires Rebased(db, db', s, u, now, x)
    ensures OccupantMatchesStatus(db'.spots) && OneSpotPerUser(db'.spots)
  {
  }

  lemma ReleaseKeepsOccupants(db: Db, db': Db, s: SpotId, u: UserId, now: int, x: ResId)
    requires Wf(db)
    requires Closed(db, db', s, u, now, x)
    ensures OccupantMatchesStatus(db'.spots) && OneSpotPerUser(db'.spots)
  {
  }

  lemma OccupyKeepsActive(db: Db, db': Db, s: SpotId, u: UserId, now: int, x: ResId)
    requires Wf(db)
    requires Rebased(db, db', s, u, now, x)
    ensures OneActivePerSpot(db'.reservations) && ActiveIsHeld(db') && HeldHasActive(db')
  {
    forall t | t in db'.spots && db'.spots[t].userId.Some?
      ensures exists y :: ActiveIn(db'.reservations, t, db'.spots[t].userId.value, y)
    {
      var y: ResId :| ActiveIn(db.reservations, t, db.spots[t].userId.value, y);
      assert ActiveIn(db'.reservations, t, db'.spots[t].userId.value, y);
    }
  }

  lemma OccupyPreservesWf(db: Db, who: Principal, spotId: SpotId, now: int)
    requires Wf(db)
    ensures Wf(Occupy(db, who, spotId, now).after)
  {
    var r := Occupy(db, who, spotId, now);
    if r.outcome.Done? {
      var x :| Rebased(db, r.after, spotId, who.id, now, x);
      RebasedKeepsWf(db, r.after, spotId, who.id, now, x);
    }
  }

  lemma RebasedKeepsWf(db: Db, db': Db, s: SpotId, u: UserId, now: int, x: ResId)
    requires Wf(db)
    requires Rebased(db, db', s, u, now, x)
    ensures Wf(db')
  {
    StatusChangeKeepsShape(db, db');
    OccupyKeepsOccupants(db, db', s, u, now, x);
    OccupyKeepsActive(db, db', s, u, now, x);
  }

  lemma ReleaseKeepsActive(db: Db, db': Db, s: SpotId, u: UserId, now: int, x: ResId)
    requires Wf(db)
    requires Closed(db, db', s, u, now, x)
    ensures OneActivePerSpot(db'.reservations) && ActiveIsHeld(db') && HeldHasActive(db')
  {
    // x was the one active reservation of the spot
    assert forall y :: y in db.reservations && IsActive(db.reservations[y]) && y != x ==>
             db.reservations[y].spotId != s;
    forall t | t in db'.spots && db'.spots[t].userId.Some?
      ensures exists y :: ActiveIn(db'.reservations, t, db'.spots[t].userId.value, y)
    {
      var y: ResId :| ActiveIn(db.reservations, t, db.spots[t].userId.value, y);
      assert ActiveIn(db'.reservations, t, db'.spots[t].userId.value, y);
    }
  }

  lemma ReleasePreservesWf(db: Db, who: Principal, spotId: SpotId, now: int)
    requires Wf(db)
    ensures Wf(Release(db, who, spotId, now).after)
  {
    var r := Release(db, who, spotId, now);
    if r.outcome.Done? {
      var x :| Closed(db, r.after, spotId, who.id, now, x);
      ClosedKeepsWf(db, r.after, spotId, who.id, now, x);
    }
  }

  lemma ClosedKeepsWf(db: Db, db': Db, s: SpotId, u: UserId, now: int, x: ResId)
    requires Wf(db)
    requires Closed(db, db', s, u, now, x)
    ensures Wf(db')
  {
    StatusChangeKeepsShape(db, db');
    ReleaseKeepsOccupants(db, db', s, u, now, x);
    ReleaseKeepsActive(db, db', s, u, now, x);
  }

  // ----- consequences of the invariants -----

  /** Under the invariants the consistency fault cannot happen: occupying a spot the caller has
      reserved always succeeds. */
  lemma OccupyOwnReservationSucceeds(db: Db, u: UserId, spotId: SpotId, now: int)
    requires Wf(db)
    requires HeldBy(db.spots, spotId, u, Reserved)
    ensures Occupy(db, Principal(UserAccount, u), spotId, now).outcome.Done?
  {
    var x: ResId :| ActiveIn(db.reservations, spotId, u, x);
    assert x < db.nextRes;
  }

  /** Under the invariants releasing a spot the caller occupies always succeeds. */
  lemma ReleaseOwnSpotSucceeds(db: Db, u: UserId, spotId: SpotId, now: int)
    requires Wf(db)
    requires HeldBy(db.spots, spotId, u, Occupied)
    ensures Release(db, Principal(UserAccount, u), spotId, now).outcome.Done?
  {
    var x: ResId :| ActiveIn(db.reservations, spotId, u, x);
    assert x < db.nextRes;
  }

  /** Under the invariants, occupying rebases the spot's one active reservation. */
  lemma OccupyRebasesTheActive(db: Db, u: UserId, s: SpotId, now: int, x: ResId)
    requires Wf(db)
    requires HeldBy(db.spots, s, u, Reserved)
    requires ActiveIn(db.reservations, s, u, x)
    ensures var r := Occupy(db, Principal(UserAccount, u), s, now);
            && r.outcome.Done?
            && HeldBy(r.after.spots, s, u, Occupied)
            && x in r.after.reservations
            && r.after.reservations[x] == db.reservations[x].(parkingTs := now)
            && Wf(r.after)
  {
    var who := Principal(UserAccount, u);
    OccupyOwnReservationSucceeds(db, u, s, now);
    OccupyPreservesWf(db, who, s, now);
    var r := Occupy(db, who, s, now);
    var y :| Rebased(db, r.after, s, u, now, y);
    assert y == x;
  }

  /** Under the invariants, releasing closes the spot's one active reservation. */
  lemma ReleaseClosesTheActive(db: Db, u: UserId, s: SpotId, now: int, x: ResId)
    requires Wf(db)
    requires HeldBy(db.spots, s, u, Occupied)
    requires ActiveIn(db.reservations, s, u, x)
    ensures var r := Release(db, Principal(UserAccount, u), s, now);
            && r.outcome.Done?
            && s in r.after.spots
            && r.after.spots[s].status == Available
            && r.after.spots[s].userId.None?
            && x in r.after.reservations
            && r.after.reservations[x] == db.reservations[x].(leavingTs := Some(now))
            && Wf(r.after)
  {
    var who := Principal(UserAccount, u);
    ReleaseOwnSpotSucceeds(db, u, s, now);
    ReleasePreservesWf(db, who, s, now);
    var r := Release(db, who, s, now);
    var y :| Closed(db, r.after, s, u, now, y);
    assert y == x;
  }

  /** Reserve, then occupy at `t1` and release at `t2` the spot it chose: the spot ends available
      without occupant, and the reservation opened under the next id is closed, spanning `t1`
      to `t2`, at the price the lot had when it was reserved. */
  lemma ReserveOccupyRelease(db: Db, u: UserId, lotId: LotId, t0: int, t1: int, t2: int) returns (s: SpotId)
    requires Wf(db)
    requires Reserve(db, Principal(UserAccount, u), lotId, t0).outcome.Done?
    ensures var who := Principal(UserAccount, u);
            var db1 := Reserve(db, who, lotId, t0).after;
            var r2 := Occupy(db1, who, s, t1);
            var r3 := Release(r2.after, who, s, t2);
            && HeldBy(db1.spots, s, u, Reserved)
            && r2.outcome.Done?
            && r3.outcome.Done?
            && s in r3.after.spots
            && r3.after.spots[s].status == Available
            && r3.after.spots[s].userId.None?
            && db.nextRes in r3.after.reservations
            && r3.after.reservations[db.nextRes] == Reservation(s, u, t1, Some(t2), db.lots[lotId].price)
  {
    var who := Principal(UserAccount, u);
    var db1 := Reserve(db, who, lotId, t0).after;
    s :| ReservedLowest(db, db1, u, lotId, t0, s);
    ReservePreservesWf(db, who, lotId, t0);
    var x := db.nextRes;
    assert ActiveIn(db1.reservations, s, u, x);
    OccupyRebasesTheActive(db1, u, s, t1, x);
    var r2 := Occupy(db1, who, s, t1);
    ReleaseClosesTheActive(r2.after, u, s, t2, x);
  }
}
