/** The admin routes that create and delete spots: creating a lot with its spots, editing a lot
    (which resynchronises the spots with the new capacity) and deleting a lot (which cascades
    to its spots and their reservations). */
module Capacity {
  import opened Common
  import opened LoginId
  import opened Store

  /** How many integers lo..hi there are. */
  function Count(lo: int, hi: int): (n: nat)
    ensures n == 0 <==> hi < lo
    ensures n > 0 ==> lo + n - 1 == hi
  {
    if lo <= hi then hi - lo + 1 else 0
  }

  predicate InBlock(first: nat, n: nat, s: SpotId) {
    first <= s < first + n
  }

  /** One new available spot of the lot for each number from `lo` to `hi`, the new rows
      taking consecutive ids from `firstId`. */
  function NewSpots(lotId: LotId, firstId: nat, lo: int, hi: int): (m: map<SpotId, Spot>)
    ensures forall s :: s in m <==> InBlock(firstId, Count(lo, hi), s)
    ensures forall s :: s in m ==> m[s] == NewSpot(lotId, lo + (s - firstId)) && lo <= m[s].number <= hi
  {
    var n := Count(lo, hi);
    map s: SpotId | firstId <= s < firstId + n && InBlock(firstId, n, s) :: NewSpot(lotId, lo + (s - firstId))
  }

  /** The new spots carry each number lo..hi exactly once. */
  lemma NewSpotsNumbering(lotId: LotId, firstId: nat, lo: int, hi: int)
    ensures NumberedExactly(NewSpots(lotId, firstId, lo, hi), lotId, lo, hi)
    ensures NumbersUnique(NewSpots(lotId, firstId, lo, hi))
  {
    var m := NewSpots(lotId, firstId, lo, hi);
    forall k | lo <= k <= hi
      ensures k in NumbersOfLot(m, lotId)
    {
      var s: SpotId := firstId + (k - lo);
      assert InBlock(firstId, Count(lo, hi), s);
      assert s in m && m[s].number == k;
    }
  }

  // ----- the three steps the routes are made of -----

  /** Adds available spots numbered lo..hi to a lot, under fresh ids. */
  function AddSpots(db: Db, lotId: LotId, lo: int, hi: int): (after: Db)
    ensures after.lots == db.lots && after.reservations == db.reservations
    ensures after.nextLot == db.nextLot && after.nextRes == db.nextRes
    ensures after.nextSpot == db.nextSpot + Count(lo, hi)
    ensures forall s :: s in after.spots <==> s in db.spots || InBlock(db.nextSpot, Count(lo, hi), s)
    ensures forall s :: s in db.spots && s < db.nextSpot ==> s in after.spots && after.spots[s] == db.spots[s]
    ensures forall s :: InBlock(db.nextSpot, Count(lo, hi), s) ==>
              s in after.spots && after.spots[s] == NewSpot(lotId, after.spots[s].number) && lo <= after.spots[s].number <= hi
  {
    db.(spots := db.spots + NewSpots(lotId, db.nextSpot, lo, hi), nextSpot := db.nextSpot + Count(lo, hi))
  }

  /** The numbers of a lot after adding lo..hi to `lotId` are its old ones, plus lo..hi when it
      is `lotId`. */
  lemma AddSpotsNumbers(db: Db, lotId: LotId, lo: int, hi: int, l: LotId)
    requires IdsFresh(db)
    ensures forall k :: k in NumbersOfLot(AddSpots(db, lotId, lo, hi).spots, l) <==>
              k in NumbersOfLot(db.spots, l) || (l == lotId && lo <= k <= hi)
  {
    var after := AddSpots(db, lotId, lo, hi);
    var added := NewSpots(lotId, db.nextSpot, lo, hi);
    NewSpotsNumbering(lotId, db.nextSpot, lo, hi);
    assert after.spots == db.spots + added;
    forall k
      ensures k in NumbersOfLot(after.spots, l) <==> k in NumbersOfLot(db.spots, l) || (l == lotId && lo <= k <= hi)
    {
      if k in NumbersOfLot(after.spots, l) {
        var s :| s in after.spots && after.spots[s].lotId == l && after.spots[s].number == k;
        if s in added {
          assert l == lotId && lo <= k <= hi;
        } else {
          assert k in NumbersOfLot(db.spots, l);
        }
      }
      if k in NumbersOfLot(db.spots, l) {
        var s :| s in db.spots && db.spots[s].lotId == l && db.spots[s].number == k;
        assert s in after.spots && after.spots[s] == db.spots[s];
      }
      if l == lotId && lo <= k <= hi {
        assert k in NumbersOfLot(added, lotId);
        var s :| s in added && added[s].lotId == lotId && added[s].number == k;
        assert s in after.spots && after.spots[s] == added[s];
      }
    }
  }

  /** Deletes the spots `gone` and, through the cascade, their reservations. */
  function RemoveSpots(db: Db, gone: set<SpotId>): (after: Db)
    ensures after.lots == db.lots
    ensures after.nextLot == db.nextLot && after.nextSpot == db.nextSpot && after.nextRes == db.nextRes
    ensures forall s :: s in after.spots <==> s in db.spots && s !in gone
    ensures forall s :: s in after.spots ==> s in db.spots && after.spots[s] == db.spots[s]
    ensures forall x :: x in after.reservations <==> x in db.reservations && db.reservations[x].spotId !in gone
    ensures forall x :: x in after.reservations ==> x in db.reservations && after.reservations[x] == db.reservations[x]
  {
    db.(spots := db.spots - gone, reservations := Cascade(db.reservations, gone))
  }

  /** Stores a lot's record under its id. */
  function PutLot(db: Db, lotId: LotId, lot: Lot): (after: Db)
    ensures after.lots == db.lots[lotId := lot]
    ensures after.spots == db.spots && after.reservations == db.reservations
    ensures after.nextLot == db.nextLot && after.nextSpot == db.nextSpot && after.nextRes == db.nextRes
  {
    db.(lots := db.lots[lotId := lot])
  }

  predicate NameUsed(lots: map<LotId, Lot>, name: string) {
    exists l :: l in lots && lots[l].name == name
  }

  predicate NameTakenByOther(lots: map<LotId, Lot>, lotId: LotId, name: string) {
    exists l :: l in lots && l != lotId && lots[l].name == name
  }

  // ----- creating a lot -----

  /** `create_parking_lot`: refuses a name already in use, otherwise adds the lot under the next
      id and then its spots numbered 1..capacity. */
  function CreateLot(db: Db, who: Principal, name: string, price: real, address: string, pinCode: string, capacity: int): (r: Response)
    ensures r.outcome.Failed? ==> r.after == db
    ensures who.kind == UserAccount ==> r.outcome == Failed(Forbidden)
    ensures r.outcome.Done? <==> who.kind == AdminAccount && !NameUsed(db.lots, name)
    ensures who.kind == AdminAccount && NameUsed(db.lots, name) ==> r.outcome == Failed(DuplicateLotName)
    ensures r.outcome.Done? ==>
              && r.outcome.warnings == []
              && r.after.lots == db.lots[db.nextLot := Lot(name, price, address, pinCode, capacity)]
              && r.after.reservations == db.reservations
              && (forall s :: s in db.spots && s < db.nextSpot ==> s in r.after.spots && r.after.spots[s] == db.spots[s])
              && (forall s :: s in r.after.spots && s !in db.spots ==>
                    r.after.spots[s] == NewSpot(db.nextLot, r.after.spots[s].number) && 1 <= r.after.spots[s].number <= capacity)
  {
    if who.kind != AdminAccount then Response(db, Failed(Forbidden))
    else if NameUsed(db.lots, name) then Response(db, Failed(DuplicateLotName))
    else
      var withLot := PutLot(db, db.nextLot, Lot(name, price, address, pinCode, capacity)).(nextLot := db.nextLot + 1);
      Response(AddSpots(withLot, db.nextLot, 1, capacity), Done([]))
  }

  /** A created lot's spots are numbered exactly 1..capacity, each number once, all available
      and unoccupied; no other lot's numbers change. */
  lemma CreateLotNumbersOneToN(db: Db, who: Principal, name: string, price: real, address: string, pinCode: string, capacity: int)
    requires IdsFresh(db) && RefsIntact(db) && NumbersUnique(db.spots)
    requires CreateLot(db, who, name, price, address, pinCode, capacity).outcome.Done?
    ensures var after := CreateLot(db, who, name, price, address, pinCode, capacity).after;
            && NumberedExactly(after.spots, db.nextLot, 1, capacity)
            && NumbersUnique(after.spots)
            && (forall s :: s in after.spots && after.spots[s].lotId == db.nextLot ==>
                  after.spots[s].status == Available && after.spots[s].userId.None?)
            && (forall l :: l != db.nextLot ==> NumbersOfLot(after.spots, l) == NumbersOfLot(db.spots, l))
  {
    var withLot := PutLot(db, db.nextLot, Lot(name, price, address, pinCode, capacity)).(nextLot := db.nextLot + 1);
    assert IdsFresh(withLot);
    forall l
      ensures forall k :: k in NumbersOfLot(AddSpots(withLot, db.nextLot, 1, capacity).spots, l) <==>
                k in NumbersOfLot(db.spots, l) || (l == db.nextLot && 1 <= k <= capacity)
    {
      AddSpotsNumbers(withLot, db.nextLot, 1, capacity, l);
    }
    assert forall k :: k !in NumbersOfLot(db.spots, db.nextLot);
    CreateLotKeepsUnique(db, who, name, price, address, pinCode, capacity);
  }

  /** The new lot starts without spots, so its numbers cannot clash with older ones. */
  lemma CreateLotKeepsUnique(db: Db, who: Principal, name: string, price: real, address: string, pinCode: string, capacity: int)
    requires IdsFresh(db) && RefsIntact(db) && NumbersUnique(db.spots)
    requires CreateLot(db, who, name, price, address, pinCode, capacity).outcome.Done?
    ensures NumbersUnique(CreateLot(db, who, name, price, address, pinCode, capacity).after.spots)
  {
    var withLot := PutLot(db, db.nextLot, Lot(name, price, address, pinCode, capacity)).(nextLot := db.nextLot + 1);
    assert IdsFresh(withLot) && withLot.spots == db.spots;
    AddSpotsKeepsUnique(withLot, db.nextLot, 1, capacity);
  }

  lemma CreateLotPreservesWf(db: Db, who: Principal, name: string, price: real, address: string, pinCode: string, capacity: int)
    requires Wf(db)
    ensures Wf(CreateLot(db, who, name, price, address, pinCode, capacity).after)
  {
    if who.kind == AdminAccount && !NameUsed(db.lots, name) {
      var lot := Lot(name, price, address, pinCode, capacity);
      var withLot := PutLot(db, db.nextLot, lot).(nextLot := db.nextLot + 1);
      InsertLotKeepsWf(db, lot);
      AddSpotsKeepsWf(withLot, db.nextLot, 1, capacity);
    }
  }

  /** Adding a lot with an unused name under the next id keeps the store well formed. */
  lemma InsertLotKeepsWf(db: Db, lot: Lot)
    requires Wf(db)
    requires !NameUsed(db.lots, lot.name)
    ensures Wf(PutLot(db, db.nextLot, lot).(nextLot := db.nextLot + 1))
  {
    var db' := PutLot(db, db.nextLot, lot).(nextLot := db.nextLot + 1);
    forall a, b | a in db'.lots && b in db'.lots && db'.lots[a].name == db'.lots[b].name
      ensures a == b
    {
    }
    assert HeldHasActive(db');
  }

  /** Adding spots numbered above every number the lot has, up to its capacity, keeps the
      store well formed. */
  lemma AddSpotsKeepsWf(db: Db, lotId: LotId, lo: int, hi: int)
    requires Wf(db)
    requires lotId in db.lots && hi <= db.lots[lotId].maxSpots
    requires forall s :: s in db.spots && db.spots[s].lotId == lotId ==> db.spots[s].number < lo
    ensures Wf(AddSpots(db, lotId, lo, hi))
  {
    AddSpotsKeepsActive(db, lotId, lo, hi);
    AddSpotsKeepsShape(db, lotId, lo, hi);
  }

  lemma AddSpotsKeepsActive(db: Db, lotId: LotId, lo: int, hi: int)
    requires Wf(db)
    ensures var db' := AddSpots(db, lotId, lo, hi);
            && OccupantMatchesStatus(db'.spots) && OneSpotPerUser(db'.spots)
            && OneActivePerSpot(db'.reservations) && ActiveIsHeld(db') && HeldHasActive(db')
  {
    var db' := AddSpots(db, lotId, lo, hi);
    forall t | t in db'.spots && db'.spots[t].userId.Some?
      ensures exists x :: ActiveIn(db'.reservations, t, db'.spots[t].userId.value, x)
    {
      assert t in db.spots && db'.spots[t] == db.spots[t];
      var x: ResId :| ActiveIn(db.reservations, t, db.spots[t].userId.value, x);
      assert ActiveIn(db'.reservations, t, db'.spots[t].userId.value, x);
    }
  }

  lemma AddSpotsKeepsShape(db: Db, lotId: LotId, lo: int, hi: int)
    requires Wf(db)
    requires lotId in db.lots && hi <= db.lots[lotId].maxSpots
    requires forall s :: s in db.spots && db.spots[s].lotId == lotId ==> db.spots[s].number < lo
    ensures var db' := AddSpots(db, lotId, lo, hi);
            && IdsFresh(db') && RefsIntact(db') && NumbersWithinMax(db') && NumbersUnique(db'.spots) && NamesUnique(db'.lots)
  {
    AddSpotsKeepsUnique(db, lotId, lo, hi);
  }

  /** Spots numbered above every number the lot has keep spot numbers unique per lot. */
  lemma AddSpotsKeepsUnique(db: Db, lotId: LotId, lo: int, hi: int)
    requires IdsFresh(db) && NumbersUnique(db.spots)
    requires forall s :: s in db.spots && db.spots[s].lotId == lotId ==> db.spots[s].number < lo
    ensures NumbersUnique(AddSpots(db, lotId, lo, hi).spots)
  {
    var db' := AddSpots(db, lotId, lo, hi);
    var added := NewSpots(lotId, db.nextSpot, lo, hi);
    NewSpotsNumbering(lotId, db.nextSpot, lo, hi);
    assert db'.spots == db.spots + added;
    forall a, b | a in db'.spots && b in db'.spots && db'.spots[a].lotId == db'.spots[b].lotId && db'.spots[a].number == db'.spots[b].number
      ensures a == b
    {
      if a in db.spots && b in db.spots {
        assert db'.spots[a] == db.spots[a] && db'.spots[b] == db.spots[b];
      } else if a in added && b in added {
        assert db'.spots[a] == added[a] && db'.spots[b] == added[b];
      }
    }
  }

  // ----- editing a lot -----

  /** The spots a shrink to `newMax` deletes: every spot of the lot numbered above it,
      whatever its status. */
  function Doomed(spots: map<SpotId, Spot>, lotId: LotId, newMax: int): (gone: set<SpotId>)
    ensures forall s :: s in gone <==> s in spots && spots[s].lotId == lotId && spots[s].number > newMax
  {
    set s | s in spots && spots[s].lotId == lotId && spots[s].number > newMax
  }

  /** A spot the shrink deletes while it is occupied or reserved. */
  predicate DoomedHeld(spots: map<SpotId, Spot>, lotId: LotId, newMax: int, s: SpotId) {
    s in spots && spots[s].lotId == lotId && spots[s].number > newMax && spots[s].status != Available
  }

  /** The warnings of a shrink: the held deleted spots with ids in lo..hi-1, in id order. */
  function ShrinkWarnings(spots: map<SpotId, Spot>, lotId: LotId, newMax: int, lo: nat, hi: nat): (ws: seq<Warning>)
    decreases hi - lo
    ensures forall i :: 0 <= i < |ws| ==>
              && lo <= ws[i].spotId < hi
              && DoomedHeld(spots, lotId, newMax, ws[i].spotId)
              && ws[i] == Warning(ws[i].spotId, spots[ws[i].spotId].number, spots[ws[i].spotId].status)
    ensures forall i, j :: 0 <= i < j < |ws| ==> ws[i].spotId < ws[j].spotId
  {
    if lo >= hi then []
    else
      var rest := ShrinkWarnings(spots, lotId, newMax, lo + 1, hi);
      if DoomedHeld(spots, lotId, newMax, lo) then [Warning(lo, spots[lo].number, spots[lo].status)] + rest
      else rest
  }

  /** No held deleted spot goes without its warning. */
  lemma {:induction false} ShrinkWarningsComplete(spots: map<SpotId, Spot>, lotId: LotId, newMax: int, lo: nat, hi: nat, s: SpotId)
    requires lo <= s < hi && DoomedHeld(spots, lotId, newMax, s)
    ensures exists i :: 0 <= i < |ShrinkWarnings(spots, lotId, newMax, lo, hi)| && ShrinkWarnings(spots, lotId, newMax, lo, hi)[i].spotId == s
    decreases hi - lo
  {
    var ws := ShrinkWarnings(spots, lotId, newMax, lo, hi);
    if s == lo {
      assert ws[0].spotId == s;
    } else {
      var rest := ShrinkWarnings(spots, lotId, newMax, lo + 1, hi);
      ShrinkWarningsComplete(spots, lotId, newMax, lo + 1, hi, s);
      var j :| 0 <= j < |rest| && rest[j].spotId == s;
      if DoomedHeld(spots, lotId, newMax, lo) {
        assert ws[j + 1] == rest[j];
      } else {
        assert ws[j] == rest[j];
      }
    }
  }

  /** `edit_parking_lot`: replaces the lot's fields, then appends spots oldMax+1..newMax when the
      capacity grew, or deletes every spot numbered above newMax (with its reservations) when
      it shrank, warning about each deleted spot that was held. A name another lot already
      uses violates the unique constraint and the whole edit is rolled back. */
  function EditLot(db: Db, who: Principal, lotId: LotId, name: string, price: real, address: string, pinCode: string, newMax: int): (r: Response)
    ensures r.outcome.Failed? ==> r.after == db
    ensures who.kind == UserAccount ==> r.outcome == Failed(Forbidden)
    ensures r.outcome.Done? <==> who.kind == AdminAccount && lotId in db.lots && !NameTakenByOther(db.lots, lotId, name)
    ensures who.kind == AdminAccount && lotId !in db.lots ==> r.outcome == Failed(LotNotFound)
    ensures who.kind == AdminAccount && lotId in db.lots && NameTakenByOther(db.lots, lotId, name) ==>
              r.outcome == Failed(DuplicateLotName)
    ensures r.outcome.Done? ==> r.after.lots == db.lots[lotId := Lot(name, price, address, pinCode, newMax)]
    ensures r.outcome.Done? ==> forall i :: 0 <= i < |r.outcome.warnings| ==>
              DoomedHeld(db.spots, lotId, newMax, r.outcome.warnings[i].spotId)
  {
    if who.kind != AdminAccount then Response(db, Failed(Forbidden))
    else if lotId !in db.lots then Response(db, Failed(LotNotFound))
    else if NameTakenByOther(db.lots, lotId, name) then Response(db, Failed(DuplicateLotName))
    else
      var oldMax := db.lots[lotId].maxSpots;
      var lot := Lot(name, price, address, pinCode, newMax);
      if newMax > oldMax then
        Response(AddSpots(PutLot(db, lotId, lot), lotId, oldMax + 1, newMax), Done([]))
      else if newMax < oldMax then
        Response(PutLot(RemoveSpots(db, Doomed(db.spots, lotId, newMax)), lotId, lot),
                 Done(ShrinkWarnings(db.spots, lotId, newMax, 0, db.nextSpot)))
      else
        Response(PutLot(db, lotId, lot), Done([]))
  }

  /** A successful edit as the composition of the three steps. */
  lemma EditLotSteps(db: Db, who: Principal, lotId: LotId, name: string, price: real, address: string, pinCode: string, newMax: int)
    requires EditLot(db, who, lotId, name, price, address, pinCode, newMax).outcome.Done?
    ensures var lot := Lot(name, price, address, pinCode, newMax);
            var oldMax := db.lots[lotId].maxSpots;
            EditLot(db, who, lotId, name, price, address, pinCode, newMax).after ==
              if newMax > oldMax then AddSpots(PutLot(db, lotId, lot), lotId, oldMax + 1, newMax)
              else if newMax < oldMax then PutLot(RemoveSpots(db, Doomed(db.spots, lotId, newMax)), lotId, lot)
              else PutLot(db, lotId, lot)
  {
  }

  /** Reservations are never rewritten by an edit, so their rate snapshots survive a price
      change; only a shrink removes any, and only those of the deleted spots. */
  lemma EditLotKeepsRates(db: Db, who: Principal, lotId: LotId, name: string, price: real, address: string, pinCode: string, newMax: int)
    requires EditLot(db, who, lotId, name, price, address, pinCode, newMax).outcome.Done?
    ensures var after := EditLot(db, who, lotId, name, price, address, pinCode, newMax).after;
            && (forall x :: x in after.reservations ==> x in db.reservations && after.reservations[x] == db.reservations[x])
            && (newMax < db.lots[lotId].maxSpots ==> forall x :: x in db.reservations ==>
                  (x in after.reservations <==> db.reservations[x].spotId !in Doomed(db.spots, lotId, newMax)))
  {
    EditLotSteps(db, who, lotId, name, price, address, pinCode, newMax);
  }

  /** Growing (or keeping) the capacity changes no existing spot and no reservation, and the
      only new spots are available spots of this lot numbered oldMax+1..newMax. */
  lemma EditLotGrows(db: Db, who: Principal, lotId: LotId, name: string, price: real, address: string, pinCode: string, newMax: int)
    requires EditLot(db, who, lotId, name, price, address, pinCode, newMax).outcome.Done?
    requires newMax >= db.lots[lotId].maxSpots
    ensures var r := EditLot(db, who, lotId, name, price, address, pinCode, newMax);
            && r.after.reservations == db.reservations
            && r.outcome.warnings == []
            && (forall s :: s in db.spots && s < db.nextSpot ==> s in r.after.spots && r.after.spots[s] == db.spots[s])
            && (forall s :: s in r.after.spots && s !in db.spots ==>
                  r.after.spots[s] == NewSpot(lotId, r.after.spots[s].number)
                  && db.lots[lotId].maxSpots < r.after.spots[s].number <= newMax)
  {
    EditLotSteps(db, who, lotId, name, price, address, pinCode, newMax);
  }

  /** Shrinking the capacity deletes exactly the lot's spots numbered above newMax, whatever
      their status, and leaves every other spot as it was. */
  lemma EditLotShrinks(db: Db, who: Principal, lotId: LotId, name: string, price: real, address: string, pinCode: string, newMax: int)
    requires EditLot(db, who, lotId, name, price, address, pinCode, newMax).outcome.Done?
    requires newMax < db.lots[lotId].maxSpots
    ensures var after := EditLot(db, who, lotId, name, price, address, pinCode, newMax).after;
            && (forall s :: s in after.spots <==> s in db.spots && !(db.spots[s].lotId == lotId && db.spots[s].number > newMax))
            && (forall s :: s in after.spots ==> s in db.spots && after.spots[s] == db.spots[s])
  {
    EditLotSteps(db, who, lotId, name, price, address, pinCode, newMax);
  }

  /** A shrink warns about every deleted spot that was occupied or reserved; the contract of
      `EditLot` adds that it warns about no other spot. */
  lemma EditLotWarnsHeldSpots(db: Db, who: Principal, lotId: LotId, name: string, price: real, address: string, pinCode: string, newMax: int, s: SpotId)
    requires Wf(db)
    requires EditLot(db, who, lotId, name, price, address, pinCode, newMax).outcome.Done?
    requires DoomedHeld(db.spots, lotId, newMax, s)
    ensures var ws := EditLot(db, who, lotId, name, price, address, pinCode, newMax).outcome.warnings;
            exists i :: 0 <= i < |ws| && ws[i].spotId == s
  {
    assert db.spots[s].number <= db.lots[lotId].maxSpots;
    ShrinkWarningsComplete(db.spots, lotId, newMax, 0, db.nextSpot, s);
  }

  lemma EditLotPreservesWf(db: Db, who: Principal, lotId: LotId, name: string, price: real, address: string, pinCode: string, newMax: int)
    requires Wf(db)
    ensures Wf(EditLot(db, who, lotId, name, price, address, pinCode, newMax).after)
  {
    if who.kind == AdminAccount && lotId in db.lots && !NameTakenByOther(db.lots, lotId, name) {
      EditLotSteps(db, who, lotId, name, price, address, pinCode, newMax);
      var oldMax := db.lots[lotId].maxSpots;
      var lot := Lot(name, price, address, pinCode, newMax);
      if newMax > oldMax {
        GrowKeepsWf(db, lotId, lot);
      } else if newMax < oldMax {
        ShrinkKeepsWf(db, lotId, lot);
      } else {
        PutLotKeepsWf(db, lotId, lot);
      }
    }
  }

  lemma GrowKeepsWf(db: Db, lotId: LotId, lot: Lot)
    requires Wf(db)
    requires lotId in db.lots && db.lots[lotId].maxSpots < lot.maxSpots
    requires !NameTakenByOther(db.lots, lotId, lot.name)
    ensures Wf(AddSpots(PutLot(db, lotId, lot), lotId, db.lots[lotId].maxSpots + 1, lot.maxSpots))
  {
    PutLotKeepsWf(db, lotId, lot);
    AddSpotsKeepsWf(PutLot(db, lotId, lot), lotId, db.lots[lotId].maxSpots + 1, lot.maxSpots);
  }

  lemma ShrinkKeepsWf(db: Db, lotId: LotId, lot: Lot)
    requires Wf(db)
    requires lotId in db.lots
    requires !NameTakenByOther(db.lots, lotId, lot.name)
    ensures Wf(PutLot(RemoveSpots(db, Doomed(db.spots, lotId, lot.maxSpots)), lotId, lot))
  {
    var gone := Doomed(db.spots, lotId, lot.maxSpots);
    RemoveSpotsKeepsWf(db, gone);
    PutLotKeepsWf(RemoveSpots(db, gone), lotId, lot);
  }

  /** Replacing a lot's record keeps the store well formed as long as its name stays unique
      and its capacity still covers its spots' numbers. */
  lemma PutLotKeepsWf(db: Db, lotId: LotId, lot: Lot)
    requires Wf(db)
    requires lotId in db.lots
    requires !NameTakenByOther(db.lots, lotId, lot.name)
    requires forall s :: s in db.spots && db.spots[s].lotId == lotId ==> db.spots[s].number <= lot.maxSpots
    ensures Wf(PutLot(db, lotId, lot))
  {
    var db' := PutLot(db, lotId, lot);
    forall a, b | a in db'.lots && b in db'.lots && db'.lots[a].name == db'.lots[b].name
      ensures a == b
    {
    }
    assert HeldHasActive(db');
  }

  /** Deleting any set of spots together with their reservations keeps the store well formed. */
  lemma RemoveSpotsKeepsWf(db: Db, gone: set<SpotId>)
    requires Wf(db)
    ensures Wf(RemoveSpots(db, gone))
  {
    var db' := RemoveSpots(db, gone);
    forall t | t in db'.spots && db'.spots[t].userId.Some?
      ensures exists x :: ActiveIn(db'.reservations, t, db'.spots[t].userId.value, x)
    {
      var x: ResId :| ActiveIn(db.reservations, t, db.spots[t].userId.value, x);
      assert ActiveIn(db'.reservations, t, db'.spots[t].userId.value, x);
    }
  }

  /** Dense numbering is kept by every edit that starts from a non-negative capacity: spots
      1..oldMax before, spots 1..newMax after. */
  lemma EditLotKeepsNumbering(db: Db, who: Principal, lotId: LotId, name: string, price: real, address: string, pinCode: string, newMax: int)
    requires IdsFresh(db)
    requires EditLot(db, who, lotId, name, price, address, pinCode, newMax).outcome.Done?
    requires db.lots[lotId].maxSpots >= 0
    requires NumberedExactly(db.spots, lotId, 1, db.lots[lotId].maxSpots)
    ensures NumberedExactly(EditLot(db, who, lotId, name, price, address, pinCode, newMax).after.spots, lotId, 1, newMax)
  {
    EditLotSteps(db, who, lotId, name, price, address, pinCode, newMax);
    var lot := Lot(name, price, address, pinCode, newMax);
    if newMax > db.lots[lotId].maxSpots {
      GrowKeepsNumbering(db, lotId, lot);
    } else if newMax < db.lots[lotId].maxSpots {
      ShrinkKeepsNumbering(db, lotId, lot);
    }
  }

  lemma GrowKeepsNumbering(db: Db, lotId: LotId, lot: Lot)
    requires IdsFresh(db)
    requires lotId in db.lots && 0 <= db.lots[lotId].maxSpots <= lot.maxSpots
    requires NumberedExactly(db.spots, lotId, 1, db.lots[lotId].maxSpots)
    ensures NumberedExactly(AddSpots(PutLot(db, lotId, lot), lotId, db.lots[lotId].maxSpots + 1, lot.maxSpots).spots, lotId, 1, lot.maxSpots)
  {
    var put := PutLot(db, lotId, lot);
    assert IdsFresh(put);
    GrowNumbering(put, lotId, db.lots[lotId].maxSpots, lot.maxSpots);
  }

  lemma ShrinkKeepsNumbering(db: Db, lotId: LotId, lot: Lot)
    requires lotId in db.lots && lot.maxSpots <= db.lots[lotId].maxSpots
    requires NumberedExactly(db.spots, lotId, 1, db.lots[lotId].maxSpots)
    ensures NumberedExactly(PutLot(RemoveSpots(db, Doomed(db.spots, lotId, lot.maxSpots)), lotId, lot).spots, lotId, 1, lot.maxSpots)
  {
    ShrinkNumbering(db.spots, lotId, db.lots[lotId].maxSpots, lot.maxSpots);
  }

  lemma GrowNumbering(db: Db, lotId: LotId, oldMax: int, newMax: int)
    requires IdsFresh(db)
    requires 0 <= oldMax <= newMax
    requires NumberedExactly(db.spots, lotId, 1, oldMax)
    ensures NumberedExactly(AddSpots(db, lotId, oldMax + 1, newMax).spots, lotId, 1, newMax)
  {
    AddSpotsNumbers(db, lotId, oldMax + 1, newMax, lotId);
    var after := AddSpots(db, lotId, oldMax + 1, newMax);
    forall k
      ensures k in NumbersOfLot(after.spots, lotId) <==> 1 <= k <= newMax
    {
      assert k in NumbersOfLot(after.spots, lotId) <==> k in NumbersOfLot(db.spots, lotId) || oldMax + 1 <= k <= newMax;
      assert k in NumbersOfLot(db.spots, lotId) <==> 1 <= k <= oldMax;
    }
  }

  lemma ShrinkNumbering(spots: map<SpotId, Spot>, lotId: LotId, oldMax: int, newMax: int)
    requires newMax <= oldMax
    requires NumberedExactly(spots, lotId, 1, oldMax)
    ensures NumberedExactly(spots - Doomed(spots, lotId, newMax), lotId, 1, newMax)
  {
    RemoveAboveNumbers(spots, lotId, newMax);
  }

  /** Deleting the spots numbered above `newMax` leaves the lot exactly its numbers up to
      `newMax`. */
  lemma RemoveAboveNumbers(spots: map<SpotId, Spot>, lotId: LotId, newMax: int)
    ensures forall k :: k in NumbersOfLot(spots - Doomed(spots, lotId, newMax), lotId) <==>
              k in NumbersOfLot(spots, lotId) && k <= newMax
  {
    var kept := spots - Doomed(spots, lotId, newMax);
    forall k
      ensures k in NumbersOfLot(kept, lotId) <==> k in NumbersOfLot(spots, lotId) && k <= newMax
    {
      if k in NumbersOfLot(kept, lotId) {
        var s :| s in kept && kept[s].lotId == lotId && kept[s].number == k;
        assert s in spots && spots[s] == kept[s];
      }
      if k in NumbersOfLot(spots, lotId) && k <= newMax {
        var s :| s in spots && spots[s].lotId == lotId && spots[s].number == k;
        assert s in kept;
      }
    }
  }

  /** The app does not check capacities: from a negative capacity, growing the lot creates
      spots numbered zero and below. A lot created with capacity -1 and edited to capacity 1
      gets spots numbered 0 and 1. */
  lemma GrowFromNegativeCapacity(name: string, price: real, address: string, pinCode: string)
    ensures var admin := Principal(AdminAccount, 1);
            var r1 := CreateLot(EmptyDb, admin, name, price, address, pinCode, -1);
            var r2 := EditLot(r1.after, admin, EmptyDb.nextLot, name, price, address, pinCode, 1);
            && r1.outcome.Done? && r2.outcome.Done?
            && r1.after.spots == map[]
            && NumberedExactly(r2.after.spots, EmptyDb.nextLot, 0, 1)
  {
    var admin := Principal(AdminAccount, 1);
    var l := EmptyDb.nextLot;
    var r1 := CreateLot(EmptyDb, admin, name, price, address, pinCode, -1);
    assert r1.after.spots == map[];
    assert r1.after.lots == map[l := Lot(name, price, address, pinCode, -1)];
    assert !NameTakenByOther(r1.after.lots, l, name);
    var db1 := PutLot(r1.after, l, Lot(name, price, address, pinCode, 1));
    assert IdsFresh(db1);
    AddSpotsNumbers(db1, l, 0, 1, l);
    assert forall k :: k !in NumbersOfLot(db1.spots, l);
  }

  /** Rewriting a lot's own record does not make its name clash with another lot. */
  lemma NameFreeAfterPut(lots: map<LotId, Lot>, lotId: LotId, lot: Lot, name: string)
    requires !NameTakenByOther(lots, lotId, name)
    ensures !NameTakenByOther(lots[lotId := lot], lotId, name)
  {
    assert forall l :: l in lots[lotId := lot] && l != lotId ==> lots[lotId := lot][l] == lots[l];
  }

  /** Shrinking back to the capacity `m` of `db` a store that only added spots numbered
      above `m` to `db`'s lot removes exactly those spots. */
  lemma ShrinkBackRestores(db: Db, db1: Db, who: Principal, lotId: LotId, name: string, price: real, address: string, pinCode: string)
    requires RefsIntact(db) && NumbersWithinMax(db) && lotId in db.lots
    requires EditLot(db1, who, lotId, name, price, address, pinCode, db.lots[lotId].maxSpots).outcome.Done?
    requires db1.lots[lotId].maxSpots > db.lots[lotId].maxSpots
    requires db1.reservations == db.reservations
    requires forall s :: s in db.spots ==> s in db1.spots && db1.spots[s] == db.spots[s]
    requires forall s :: s in db1.spots && s !in db.spots ==>
               db1.spots[s].lotId == lotId && db1.spots[s].number > db.lots[lotId].maxSpots
    ensures var r := EditLot(db1, who, lotId, name, price, address, pinCode, db.lots[lotId].maxSpots);
            r.after.spots == db.spots && r.after.reservations == db.reservations
  {
    var m := db.lots[lotId].maxSpots;
    EditLotShrinks(db1, who, lotId, name, price, address, pinCode, m);
    EditLotKeepsRates(db1, who, lotId, name, price, address, pinCode, m);
  }

  /** Editing a lot to a larger capacity and back to its capacity restores its spots and
      reservations. The lot record changes, and so does the spot key counter, which in the
      model never moves back. */
  lemma GrowThenShrink(db: Db, who: Principal, lotId: LotId, name: string, price: real, address: string, pinCode: string, grownMax: int)
    requires Wf(db)
    requires lotId in db.lots && grownMax > db.lots[lotId].maxSpots
    requires EditLot(db, who, lotId, name, price, address, pinCode, grownMax).outcome.Done?
    ensures var db1 := EditLot(db, who, lotId, name, price, address, pinCode, grownMax).after;
            var r := EditLot(db1, who, lotId, name, price, address, pinCode, db.lots[lotId].maxSpots);
            r.outcome.Done? && r.after.spots == db.spots && r.after.reservations == db.reservations
  {
    EditLotGrows(db, who, lotId, name, price, address, pinCode, grownMax);
    var db1 := EditLot(db, who, lotId, name, price, address, pinCode, grownMax).after;
    NameFreeAfterPut(db.lots, lotId, Lot(name, price, address, pinCode, grownMax), name);
    ShrinkBackRestores(db, db1, who, lotId, name, price, address, pinCode);
  }

  // ----- deleting a lot -----

  /** The spots of one lot. */
  function LotSpots(spots: map<SpotId, Spot>, lotId: LotId): (ss: set<SpotId>)
    ensures forall s :: s in ss <==> s in spots && spots[s].lotId == lotId
  {
    set s | s in spots && spots[s].lotId == lotId
  }

  /** `delete_parking_lot`: removes the lot, every spot of it and every reservation of those
      spots (the two cascades of the schema). */
  function DeleteLot(db: Db, who: Principal, lotId: LotId): (r: Response)
    ensures r.outcome.Failed? ==> r.after == db
    ensures who.kind == UserAccount ==> r.outcome == Failed(Forbidden)
    ensures r.outcome.Done? <==> who.kind == AdminAccount && lotId in db.lots
    ensures who.kind == AdminAccount && lotId !in db.lots ==> r.outcome == Failed(LotNotFound)
    ensures r.outcome.Done? ==>
              && r.after.lots == db.lots - {lotId}
              && (forall s :: s in r.after.spots <==> s in db.spots && db.spots[s].lotId != lotId)
              && (forall s :: s in r.after.spots ==> s in db.spots && r.after.spots[s] == db.spots[s])
              && (forall x :: x in r.after.reservations <==>
                    x in db.reservations && !(db.reservations[x].spotId in db.spots && db.spots[db.reservations[x].spotId].lotId == lotId))
              && (forall x :: x in r.after.reservations ==> x in db.reservations && r.after.reservations[x] == db.reservations[x])
  {
    if who.kind != AdminAccount then Response(db, Failed(Forbidden))
    else if lotId !in db.lots then Response(db, Failed(LotNotFound))
    else
      var cleared := RemoveSpots(db, LotSpots(db.spots, lotId));
      Response(cleared.(lots := db.lots - {lotId}), Done([]))
  }

  lemma DeleteLotPreservesWf(db: Db, who: Principal, lotId: LotId)
    requires Wf(db)
    ensures Wf(DeleteLot(db, who, lotId).after)
  {
    if who.kind == AdminAccount && lotId in db.lots {
      var gone := LotSpots(db.spots, lotId);
      RemoveSpotsKeepsWf(db, gone);
      var cleared := RemoveSpots(db, gone);
      assert forall s :: s in cleared.spots ==> cleared.spots[s].lotId != lotId;
      assert HeldHasActive(cleared.(lots := db.lots - {lotId}));
    }
  }
}
