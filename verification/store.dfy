/** The entity store: parking lots, their spots and the spots' reservations, each table keyed
    by its integer primary key. New keys come from a per-table counter that only moves up, so
    the model never reuses the key of a deleted row. */
module Store {
  import opened Common

  type LotId = nat
  type SpotId = nat
  type ResId = nat
  type UserId = nat

  datatype Status = Available | Reserved | Occupied

  /** A parking lot; `maxSpots` is the configured capacity, unchecked by the app. */
  datatype Lot = Lot(name: string, price: real, address: string, pinCode: string, maxSpots: int)

  /** A spot of one lot; `userId` is the occupant, null while the spot is available. */
  datatype Spot = Spot(lotId: LotId, number: int, status: Status, userId: Option<UserId>)

  /** A reservation of one spot by one user; `rate` is the lot's price when it was made and
      a missing `leavingTs` marks it active. */
  datatype Reservation = Reservation(spotId: SpotId, userId: UserId, parkingTs: int, leavingTs: Option<int>, rate: real)

  datatype Db = Db(
    lots: map<LotId, Lot>,
    spots: map<SpotId, Spot>,
    reservations: map<ResId, Reservation>,
    nextLot: nat,
    nextSpot: nat,
    nextRes: nat)

  /** Every table starts empty, with its key counter at one. */
  const EmptyDb: Db := Db(map[], map[], map[], 1, 1, 1)

  /** What a request tells its caller besides the new state. */
  datatype Error =
    | Forbidden             // the route is for the other kind of account
    | LotNotFound
    | SpotNotFound
    | AlreadyOccupying      // reserve: the caller occupies a spot
    | AlreadyReserved       // reserve: the caller has a spot reserved
    | NoAvailableSpot
    | AlreadyOccupiedByYou  // occupy: informational, nothing to do
    | NotReservedByYou
    | NotOccupiedByYou
    | NoActiveReservation   // the spot says held but no open reservation exists
    | DuplicateLotName

  /** A warning of the capacity edit: this held spot is being deleted. */
  datatype Warning = Warning(spotId: SpotId, number: int, status: Status)

  datatype Outcome = Done(warnings: seq<Warning>) | Failed(error: Error)

  /** The store after the request (the store before it when the request failed and was
      rolled back) and what the request reported. */
  datatype Response = Response(after: Db, outcome: Outcome)

  /** A spot as the model declares it: available and without occupant unless told otherwise. */
  function NewSpot(lotId: LotId, number: int): Spot {
    Spot(lotId, number, Available, None)
  }

  // ----- invariants -----

  ghost predicate IdsFresh(db: Db) {
    && (forall l :: l in db.lots ==> l < db.nextLot)
    && (forall s :: s in db.spots ==> s < db.nextSpot)
    && (forall x :: x in db.reservations ==> x < db.nextRes)
  }

  /** Every spot's lot and every reservation's spot exists (the foreign keys). */
  ghost predicate RefsIntact(db: Db) {
    && (forall s :: s in db.spots ==> db.spots[s].lotId in db.lots)
    && (forall x :: x in db.reservations ==> db.reservations[x].spotId in db.spots)
  }

  /** A spot is available exactly when it has no occupant. */
  ghost predicate OccupantMatchesStatus(spots: map<SpotId, Spot>) {
    forall s :: s in spots ==> (spots[s].status == Available <==> spots[s].userId.None?)
  }

  /** No account holds two spots. */
  ghost predicate OneSpotPerUser(spots: map<SpotId, Spot>) {
    forall a, b :: a in spots && b in spots && spots[a].userId.Some? && spots[a].userId == spots[b].userId ==> a == b
  }

  predicate IsActive(r: Reservation) {
    r.leavingTs.None?
  }

  /** No spot has two active reservations. */
  ghost predicate OneActivePerSpot(res: map<ResId, Reservation>) {
    forall a, b :: a in res && b in res && IsActive(res[a]) && IsActive(res[b]) && res[a].spotId == res[b].spotId ==> a == b
  }

  /** An active reservation belongs to the spot's current occupant. */
  ghost predicate ActiveIsHeld(db: Db) {
    forall x :: x in db.reservations && IsActive(db.reservations[x]) ==>
      db.reservations[x].spotId in db.spots && db.spots[db.reservations[x].spotId].userId == Some(db.reservations[x].userId)
  }

  predicate ActiveFor(r: Reservation, s: SpotId, u: UserId) {
    IsActive(r) && r.spotId == s && r.userId == u
  }

  predicate ActiveIn(res: map<ResId, Reservation>, s: SpotId, u: UserId, x: ResId) {
    x in res && ActiveFor(res[x], s, u)
  }

  /** A held spot has an active reservation of its occupant. */
  ghost predicate HeldHasActive(db: Db) {
    forall s :: s in db.spots && db.spots[s].userId.Some? ==>
      exists x :: ActiveIn(db.reservations, s, db.spots[s].userId.value, x)
  }

  /** No spot is numbered above its lot's capacity. */
  ghost predicate NumbersWithinMax(db: Db) {
    forall s :: s in db.spots && db.spots[s].lotId in db.lots ==> db.spots[s].number <= db.lots[db.spots[s].lotId].maxSpots
  }

  /** Spot numbers are unique within a lot. */
  ghost predicate NumbersUnique(spots: map<SpotId, Spot>) {
    forall a, b :: a in spots && b in spots && spots[a].lotId == spots[b].lotId && spots[a].number == spots[b].number ==> a == b
  }

  /** Lot names are unique. */
  ghost predicate NamesUnique(lots: map<LotId, Lot>) {
    forall a, b :: a in lots && b in lots && lots[a].name == lots[b].name ==> a == b
  }

  ghost predicate Wf(db: Db) {
    && IdsFresh(db)
    && RefsIntact(db)
    && OccupantMatchesStatus(db.spots)
    && OneSpotPerUser(db.spots)
    && OneActivePerSpot(db.reservations)
    && ActiveIsHeld(db)
    && HeldHasActive(db)
    && NumbersWithinMax(db)
    && NumbersUnique(db.spots)
    && NamesUnique(db.lots)
  }

  lemma EmptyDbWf()
    ensures Wf(EmptyDb)
  {
  }

  // ----- queries -----

  predicate AvailableIn(spots: map<SpotId, Spot>, lotId: LotId, s: SpotId) {
    s in spots && spots[s].lotId == lotId && spots[s].status == Available
  }

  function NumberOf(spots: map<SpotId, Spot>, s: SpotId): int {
    if s in spots then spots[s].number else 0
  }

  /** The spot a reservation takes: among the lot's available spots, the one with the smallest
      number, the lowest id among equals. */
  function LowestAvailable(db: Db, lotId: LotId): (r: Option<SpotId>)
    ensures r.Some? ==> r.value < db.nextSpot && AvailableIn(db.spots, lotId, r.value)
    ensures r.Some? ==> forall s: SpotId :: s < db.nextSpot && AvailableIn(db.spots, lotId, s) ==>
                          db.spots[r.value].number <= db.spots[s].number
    ensures r.None? <==> forall s: SpotId :: s < db.nextSpot ==> !AvailableIn(db.spots, lotId, s)
  {
    var ok := (s: nat) => AvailableIn(db.spots, lotId, s);
    var key := (s: nat) => NumberOf(db.spots, s);
    assert forall s: nat :: ok(s) == AvailableIn(db.spots, lotId, s);
    assert forall s: nat :: key(s) == NumberOf(db.spots, s);
    ArgMin(0, db.nextSpot, ok, key)
  }

  function StartOf(res: map<ResId, Reservation>, x: ResId): int {
    if x in res then res[x].parkingTs else 0
  }

  /** The reservation occupy and release act on: among the open reservations of the spot
      and user, the one that started last, the lowest id among equals. */
  function LatestActive(db: Db, s: SpotId, u: UserId): (r: Option<ResId>)
    ensures r.Some? ==> r.value < db.nextRes && ActiveIn(db.reservations, s, u, r.value)
    ensures r.Some? ==> forall x: ResId :: x < db.nextRes && ActiveIn(db.reservations, s, u, x) ==>
                          db.reservations[x].parkingTs <= db.reservations[r.value].parkingTs
    ensures r.None? <==> forall x: ResId :: x < db.nextRes ==> !ActiveIn(db.reservations, s, u, x)
  {
    var ok := (x: nat) => ActiveIn(db.reservations, s, u, x);
    var key := (x: nat) => -StartOf(db.reservations, x);
    assert forall x: nat :: ok(x) == ActiveIn(db.reservations, s, u, x);
    assert forall x: nat :: key(x) == -StartOf(db.reservations, x);
    ArgMin(0, db.nextRes, ok, key)
  }

  /** User `u` holds some spot with status `st`. */
  predicate HoldsWith(spots: map<SpotId, Spot>, u: UserId, st: Status) {
    exists s :: s in spots && spots[s].userId == Some(u) && spots[s].status == st
  }

  /** The reservations that survive deleting the spots `gone` (the cascade of a spot's
      reservations). */
  function Cascade(res: map<ResId, Reservation>, gone: set<SpotId>): (r: map<ResId, Reservation>)
    ensures forall x :: x in r <==> x in res && res[x].spotId !in gone
    ensures forall x :: x in r ==> r[x] == res[x]
  {
    map x | x in res && res[x].spotId !in gone :: res[x]
  }

  /** The set of numbers the spots of a lot carry. */
  ghost function NumbersOfLot(spots: map<SpotId, Spot>, lotId: LotId): set<int> {
    set s | s in spots && spots[s].lotId == lotId :: spots[s].number
  }

  /** The lot's spots carry exactly the numbers lo..hi (none when hi < lo). */
  ghost predicate NumberedExactly(spots: map<SpotId, Spot>, lotId: LotId, lo: int, hi: int) {
    forall k :: k in NumbersOfLot(spots, lotId) <==> lo <= k <= hi
  }
}
