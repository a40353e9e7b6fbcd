# Vehicle parking app: a Dafny model of the spot lifecycle, billing and capacity logic

The vehicle parking app is a Flask portal. Administrators create parking lots, each with a
capacity of numbered spots. Users reserve a spot, occupy it and release it, and see a billing
history computed from the elapsed time. This project models the core of that app as pure
functions over an immutable store and proves what those functions guarantee.

- **`Common`** (`common.dfy`): `Option` and `ArgMin`. `ArgMin` is the deterministic
  "filter, order by, first()" scan that every selection query of the routes reduces to.
- **`Decimal`** (`decimal.dfy`): `str(n)` and `int(s)` for non-negative integers.
- **`LoginId`** (`login_id.dfy`): the session id codec. `get_id` writes `user_<id>` or
  `admin_<id>`; `load_user` splits that string at its first underscore, parses the suffix and
  looks the id up in the table the prefix names.
- **`Store`** (`store.dfy`): the record shapes of `ParkingLot`, `ParkingSpot` and
  `Reservation`, held as maps keyed by primary key together with a key counter per table.
  It also holds:
  - the invariants the routes maintain, conjoined as `Wf`;
  - the two selection queries, lowest-numbered available spot and latest active reservation;
  - the spot-to-reservation delete cascade.
- **`Lifecycle`** (`lifecycle.dfy`): `reserve_spot`, `occupy_spot` and `release_spot`. A spot
  moves from available to reserved, then to occupied, then back to available. Each route is one
  atomic step. A failed request returns the store unchanged, as the rollback leaves it.
- **`Billing`** (`billing.dfy`): the duration block shared by `user_parking_history` and
  `admin_all_reservations`. It covers the hours/minutes/seconds split, the rendered duration
  text with its fallback, and the cost `minutes * rate`.
- **`Capacity`** (`capacity.dfy`): the capacity routes.
  - `create_parking_lot` adds spots 1..N.
  - `edit_parking_lot` appends spots when the capacity grows. When it shrinks, the route
    deletes every spot numbered above the new maximum, whatever its status, together with that
    spot's reservations, and warns about each deleted spot that was held.
  - `delete_parking_lot` cascades to the lot's spots and their reservations.

Timestamps and "now" are integer seconds, passed in as parameters. Prices are `real`.
Capacities are `int`, because the app does not validate them. The model therefore covers
negative capacities as written, and a concrete lemma shows what they lead to.

Behaviour of the app worth knowing:

- A reserve request from a caller who already holds a spot fails in two distinct ways:
  `AlreadyOccupying` is checked before `AlreadyReserved` (`project_app/routes.py:153-162`).
- The duration is never clamped to be non-negative. For a negative duration, the seconds guard
  (`project_app/routes.py:297`) can drop a nonzero seconds count.
  `Billing.NegativeDurationDropsSeconds` exhibits -3599 seconds rendering as the fallback text.
- Spot numbers are dense 1..N only when the capacity never goes negative. Growing from
  capacity -1 creates a spot numbered 0 (`Capacity.GrowFromNegativeCapacity`).
- Occupying a spot the caller neither reserved nor occupies gives `NotReservedByYou`. That holds
  for a free spot and for a spot someone else holds (`project_app/routes.py:222-223`).

## Model

| member | source | states |
|---|---|---|
| Common.ArgMin | project_app/routes.py:166 | the least-key id in the range that passes the filter, with the lowest id winning ties; `None` exactly when no id in the range passes |
| Decimal.NatToString | project_app/models.py:26 | `str(n)` yields a canonical digit string, with one digit exactly when `n < 10` |
| Decimal.ParseNat | project_app/__init__.py:35-38 | `int(s)` restricted to ASCII digits: it succeeds exactly on non-empty strings of the digits 0-9, with their decimal value |
| Decimal.ParseNatToString | project_app/__init__.py:36 | parsing `str(n)` gives `n` back |
| Decimal.NatToStringOfCanonical | project_app/__init__.py:36 | a digit string without leading zeros is exactly `str` of the value it parses to |
| LoginId.SplitFirst | project_app/__init__.py:33-34 | `None` exactly when there is no separator; otherwise the string is prefix + separator + suffix, with no separator in the prefix |
| LoginId.SplitFirstUnique | project_app/__init__.py:34 | `split('_', 1)` of `a + "_" + b` is `(a, b)` whenever `a` has no underscore |
| LoginId.GetId | project_app/models.py:25-26 | `get_id` writes the kind prefix (`user`, or `admin` as at models.py:45-46), an underscore and the decimal id; its first underscore separates exactly the prefix from the digits |
| LoginId.LoadUser | project_app/__init__.py:32-44 | no underscore gives `None`; a string that splits at its first underscore into `user` or `admin` and a suffix that parses to an integer loads that account exactly when the id is in that kind's table; every accepted string has this shape |
| LoginId.LeadingZerosAccepted | project_app/__init__.py:36 | a suffix with leading zeros parses to its value, so `user_007` loads user 7 |
| LoginId.NonIntegerSuffixRejected | project_app/__init__.py:35-38 | a suffix that is not an integer yields no account, whatever the prefix |
| LoginId.UnknownPrefixRejected | project_app/__init__.py:40-44 | a prefix other than `user` and `admin` yields no account |
| LoginId.LoadUserGetId | project_app/__init__.py:32-44 | round trip: loading `get_id(p)` returns `p` exactly when `p`'s row exists in its own table |
| LoginId.GetIdInjective | project_app/models.py:45-46 | two principals with the same id string are the same kind and id, so user 1 and admin 1 never collide |
| LoginId.LoadUserStable | project_app/__init__.py:32-44 | re-encoding a loaded principal and loading it again gives the same principal |
| LoginId.CanonicalIdRoundTrip | project_app/__init__.py:32-44 | a stored id string with canonical digits is exactly `get_id` of what it loads |
| Store.EmptyDbWf | project_app/models.py:64-83 | the empty store satisfies every invariant (keys, foreign keys, occupant iff held, one spot per user, one active reservation per spot, numbering within capacity, unique numbers, unique lot names) |
| Store.LowestAvailable | project_app/routes.py:166 | the chosen spot is an available spot of the lot whose number is not above any other available spot's; `None` exactly when the lot has no available spot |
| Store.LatestActive | project_app/routes.py:204-208 | the chosen reservation is an open reservation of this spot and user that started no earlier than any other; `None` exactly when there is none |
| Lifecycle.Reserve | project_app/routes.py:148-189 | admins are refused; a caller who occupies or reserves any spot is refused with the matching error; a missing lot is not found; otherwise it succeeds exactly when the lot has an available spot, reserving the lowest-numbered one for the caller and opening one reservation at the lot's current price; a failure changes nothing |
| Lifecycle.Occupy | project_app/routes.py:193-224 | succeeds exactly when the spot is reserved by the caller and has an open reservation; it then marks the spot occupied and re-bases only the latest open reservation's start to now; a missing open reservation rolls back; the caller's own occupied spot is an informational no-op; any other spot is not reserved by the caller |
| Lifecycle.Release | project_app/routes.py:228-258 | succeeds exactly when the spot is occupied by the caller and has an open reservation; it then frees the spot, clears the occupant and closes only the latest open reservation at now; otherwise nothing changes |
| Lifecycle.ReservePreservesWf | project_app/routes.py:153-187 | reserve keeps every store invariant |
| Lifecycle.OccupyPreservesWf | project_app/routes.py:200-223 | occupy keeps every store invariant |
| Lifecycle.ReleasePreservesWf | project_app/routes.py:235-257 | release keeps every store invariant, in particular available iff no occupant |
| Lifecycle.RebasedKeepsWf | project_app/routes.py:202-211 | marking a reserved spot occupied and re-basing its open reservation keeps every invariant |
| Lifecycle.ClosedKeepsWf | project_app/routes.py:237-247 | freeing an occupied spot and closing its open reservation keeps every invariant |
| Lifecycle.OccupyOwnReservationSucceeds | project_app/routes.py:200-216 | in a well-formed store the "no active reservation" error is unreachable: occupying one's own reserved spot always succeeds |
| Lifecycle.ReleaseOwnSpotSucceeds | project_app/routes.py:235-252 | in a well-formed store, releasing one's own occupied spot always succeeds |
| Lifecycle.OccupyRebasesTheActive | project_app/routes.py:204-211 | occupy re-bases the spot's one open reservation to now, and the spot becomes occupied by the caller |
| Lifecycle.ReleaseClosesTheActive | project_app/routes.py:240-247 | release closes the spot's one open reservation at now, and the spot becomes available without an occupant |
| Lifecycle.ReserveOccupyRelease | project_app/routes.py:166-248 | reserve, occupy at t1 and release at t2 all succeed; the spot ends available; the reservation opened at reserve spans t1 to t2 at the price the lot had when it was reserved |
| Billing.Split | project_app/routes.py:288-290 | `hours*3600 + minutes*60 + seconds == total`, with minutes and seconds in 0..59, and hours non-negative exactly when the total is |
| Billing.SplitUnique | project_app/routes.py:288-290 | the split is the only normal decomposition of its total (the inverse of `TotalOf`) |
| Billing.NonZero | project_app/routes.py:293-298 | the reference filter keeps only components with a positive count |
| Billing.Plural | project_app/routes.py:294 | a rendered part starts with a digit and, for a unit not ending in "s", ends in "s" exactly when the count exceeds one |
| Billing.PartsOf | project_app/routes.py:292-298 | at most three parts, each starting with a digit |
| Billing.SecondsGuardHolds | project_app/routes.py:297 | the seconds guard is true whenever hours and minutes are non-negative; it can be false only with a negative component |
| Billing.PartsEmptyIffZero | project_app/routes.py:292-300 | for a non-negative total the part list is empty exactly when the total is zero |
| Billing.DurationText | project_app/routes.py:300 | for a non-negative total, the fallback text (with its trailing "." in the admin view, line 364) is shown exactly when the total is zero; the text is never "N/A" |
| Billing.DurationTextIsReference | project_app/routes.py:287-300 | for a positive duration the text is exactly the positive components of the split, in the order hours, minutes, seconds, each rendered with its plural, joined by ", "; a zero duration shows the fallback |
| Billing.PartsAreNonZeroComponents | project_app/routes.py:292-298 | for a non-negative duration the seconds guard is always true, and the parts are exactly the positive components, in the order hours, minutes, seconds, each pluralised exactly when its count is above one |
| Billing.PartsOfEmptyIff | project_app/routes.py:292-300 | for a normal split with non-negative hours, the part list is empty exactly when every component is zero |
| Billing.JoinedPartsDifferFromTexts | project_app/routes.py:300 | a non-empty joined part list is never one of the fallback texts, nor "N/A" |
| Billing.NegativeDurationDropsSeconds | project_app/routes.py:297 | -3599 seconds splits into -1 h, 0 min, 1 s; the guard is false, and the text is the fallback |
| Billing.NinetySeconds | project_app/routes.py:288-300 | 90 seconds render as "1 minute, 30 seconds" |
| Billing.Cost | project_app/routes.py:284-285 | cost times 60 is seconds times rate; zero seconds cost zero; non-negative inputs cost a non-negative amount |
| Billing.NinetySecondsAtTen | project_app/routes.py:284-285 | 90 seconds at 10 per minute cost 15 |
| Billing.HistoryCells | project_app/routes.py:278-300 | duration and cost are "N/A" exactly while the reservation is open; a zero-length stay shows the fallback and costs zero |
| Capacity.NewSpotsNumbering | project_app/routes.py:458-460 | the new rows carry each number lo..hi exactly once |
| Capacity.AddSpots | project_app/routes.py:498-500 | spots are added under fresh ids and numbered within lo..hi; no existing spot, lot or reservation changes |
| Capacity.AddSpotsNumbers | project_app/routes.py:498-500 | after adding, a lot's set of numbers is its old set, plus lo..hi for the target lot |
| Capacity.CreateLot | project_app/routes.py:426-463 | users are refused; a name already in use is refused with nothing changed; otherwise the lot is stored under the next id, existing spots and reservations are kept, and the new spots are available spots of the new lot numbered within 1..capacity |
| Capacity.CreateLotNumbersOneToN | project_app/routes.py:458-461 | a created lot's spots carry exactly the numbers 1..capacity, all available and unoccupied; no other lot's numbers change; when numbers were unique per lot before, they still are, so each number occurs once |
| Capacity.CreateLotPreservesWf | project_app/routes.py:441-461 | creating a lot keeps every store invariant, including unique lot names |
| Capacity.ShrinkWarnings | project_app/routes.py:505-507 | every warning names a deleted spot that was held, with its number and status, in increasing id order |
| Capacity.ShrinkWarningsComplete | project_app/routes.py:505-507 | every deleted spot that was held has its warning |
| Capacity.EditLot | project_app/routes.py:477-518 | users are refused; a missing lot is not found; a name another lot uses fails with the duplicate-name error and rolls the edit back; otherwise it succeeds with the lot's record replaced; every warning names a spot the shrink deletes that was held |
| Capacity.EditLotKeepsRates | project_app/routes.py:488-510 | no reservation is rewritten, so rate snapshots survive a price change; only a shrink removes reservations, exactly those of deleted spots |
| Capacity.EditLotGrows | project_app/routes.py:497-501 | growing keeps every spot and reservation, emits no warning, and adds only available spots of the lot numbered oldMax+1..newMax |
| Capacity.EditLotShrinks | project_app/routes.py:502-508 | shrinking deletes exactly the lot's spots numbered above newMax, whatever their status, and leaves every other spot as it was |
| Capacity.EditLotWarnsHeldSpots | project_app/routes.py:505-507 | every held spot the shrink deletes is warned about |
| Capacity.EditLotPreservesWf | project_app/routes.py:486-511 | every edit keeps every store invariant, including numbers within the new capacity |
| Capacity.EditLotKeepsNumbering | project_app/routes.py:496-510 | from a non-negative capacity, spots numbered exactly 1..oldMax become spots numbered exactly 1..newMax |
| Capacity.RemoveAboveNumbers | project_app/routes.py:503-508 | after a shrink the lot's numbers are exactly its old numbers up to newMax |
| Capacity.GrowFromNegativeCapacity | project_app/routes.py:497-500 | a lot created with capacity -1 and edited to 1 gets spots numbered exactly 0 and 1 |
| Capacity.ShrinkBackRestores | project_app/routes.py:502-508 | shrinking back to the old capacity removes exactly the spots numbered above it and keeps every reservation of the other spots |
| Capacity.GrowThenShrink | project_app/routes.py:496-510 | editing a lot to a larger capacity and then back restores its spots and reservations exactly |
| Capacity.DeleteLot | project_app/routes.py:522-535 | users are refused; a missing lot is not found; otherwise the lot, every spot of it and every reservation of those spots go, and nothing else changes |
| Capacity.DeleteLotPreservesWf | project_app/routes.py:527-531 | deleting a lot keeps every store invariant; no spot or reservation is left dangling |
| Capacity.RemoveSpotsKeepsWf | project_app/models.py:72 | deleting any set of spots with their reservations keeps every invariant |

## Left out

- Registration, login, logout and password hashing are not modelled. They are calls into
  Werkzeug and Flask-Login. Accounts exist in the model only as the sets of primary keys that
  `load_user` consults.
- Email uniqueness (`project_app/models.py:10, 33`) is not modelled, because no modelled
  operation creates or reads an account's email.
- Admin and user read-only views are not modelled: dashboards, lot and spot views, the user
  list, search and summaries. They aggregate data for display only.
- Templates, redirects and flash texts are not modelled. The shrink warnings are the one
  exception: they are kept as data, each with the spot's id, number and status. The "Added N" /
  "Removed N" info messages are left out.
- Form parsing (`float(...)` and `int(...)` of form fields) is left out. Its `ValueError`
  path is not modelled; the routes receive already-parsed values.
- Money formatting is not modelled, neither the rupee sign nor `:.2f`. `Billing.Cost` is an
  exact `real`, not a float, so float rounding is left out.
- Billing.Cost: uses the truncated whole-second count for both views. The admin view divides
  the untruncated `total_seconds()` (`project_app/routes.py:347`). With timestamps in whole
  seconds, as here, the two agree.
- `datetime.now()` is an integer-second parameter `now`, and `strftime` is left out.
- Decimal.ParseNat: accepts only the ASCII digits 0-9. Python's `int()` also accepts a sign,
  surrounding whitespace, `_` digit separators and non-ASCII Unicode digits.
- LoginId.LoadUser: the suffix parser accepts plain decimal digits only. Python's `int()`
  also accepts a sign, surrounding whitespace and `_` digit separators, so
  `LoadUser` rejects strings such as `user_ 1`, `user_+1` and `user_1_0` that the app accepts.
- The two commits of `edit_parking_lot` (`project_app/routes.py:494, 511`) and of
  `create_parking_lot` (`project_app/routes.py:455, 461`) are modelled as one atomic step.
  The only failure modelled is the unique-name violation, and it leaves the store unchanged.
  Database errors in any route's `try` block are not modelled.
- SQL leaves the order of rows with equal sort keys unspecified. That affects `order_by(...)
  .first()` in reserve, occupy and release, and the unordered `.all()` whose order drives the
  warnings. The model breaks ties by the lowest id, and lists warnings in id order.
- LoginId.LoadUser: ids are unbounded here, while the app stores keys as 64-bit SQLite
  integers. For a suffix of 2^63 or more, `User.query.get` / `Admin.query.get`
  (`project_app/__init__.py:41, 43`) raise instead of returning `None`. Only `ValueError` is
  caught, so `load_user` fails, whereas `LoadUser` returns `None`. The same holds for the
  routes' `get_or_404` lookups (`project_app/routes.py:164, 198, 233, 482, 527`): such an id
  ends the request with a server error, where the model answers `LotNotFound` or
  `SpotNotFound`.
- Keys come from per-table counters that never reuse a value. The app's SQLite tables declare
  plain integer primary keys without AUTOINCREMENT, so a new row gets the largest existing key
  plus one. After the newest lot, spot or reservation is deleted, the app reuses its key and
  the model does not. For example, deleting the newest lot and creating another stores it
  under the deleted lot's key in the app, and under a fresh key in the model.
- The user-side cascade (`project_app/models.py:16`) is not modelled, because no modelled
  route deletes a user.
- Concurrency is not modelled. Requests are applied one at a time, so the double-booking race
  between simultaneous reservations is outside the model.
- `app.py` is not part of this model. It is a standalone older copy of the models and seeding.
