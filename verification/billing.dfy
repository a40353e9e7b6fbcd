/** The duration and cost block shared by the user's parking history and the admin's list of
    all reservations. Timestamps are integer seconds; the duration of a closed reservation is
    `leaving - parking`, which the app never clamps, so it is an `int` here too. */
module Billing {
  import opened Common
  import opened Decimal

  /** Hours, minutes and seconds of a duration. */
  datatype Hms = Hms(hours: int, minutes: int, seconds: int)

  function TotalOf(d: Hms): int {
    d.hours * 3600 + d.minutes * 60 + d.seconds
  }

  predicate Normal(d: Hms) {
    0 <= d.minutes < 60 && 0 <= d.seconds < 60
  }

  /** Whole hours of the total, then whole minutes and seconds of the remainder, all by
      floor division. Python's floor division and Dafny's Euclidean division agree for a
      positive divisor, so this is also what the route computes for a negative total. */
  function Split(total: int): (d: Hms)
    ensures TotalOf(d) == total
    ensures Normal(d)
    ensures d.hours >= 0 <==> total >= 0
  {
    var h := total / 3600;
    var rest := total % 3600;
    var m := rest / 60;
    var s := total % 60;
    assert total == h * 3600 + rest;
    assert rest == m * 60 + rest % 60;
    assert h * 3600 == (h * 60) * 60;
    assert total == (h * 60 + m) * 60 + rest % 60;
    assert s == rest % 60 by {
      var q := h * 60 + m;
      assert total == q * 60 + rest % 60;
      assert 0 <= rest % 60 < 60;
      EuclidUnique(total, 60, q, rest % 60);
    }
    Hms(h, m, s)
  }

  /** Euclidean division has exactly one quotient/remainder pair. */
  lemma EuclidUnique(a: int, b: int, q: int, r: int)
    requires b > 0
    requires a == q * b + r && 0 <= r < b
    ensures q == a / b && r == a % b
  {
    var q0, r0 := a / b, a % b;
    assert a == q0 * b + r0;
    assert (q - q0) * b == r0 - r by {
      assert q * b - q0 * b == (q - q0) * b;
    }
    if q > q0 {
      MulAtLeast(q - q0, b);
    } else if q < q0 {
      MulAtLeast(q0 - q, b);
    }
  }

  lemma MulAtLeast(k: int, b: int)
    requires k >= 1 && b > 0
    ensures k * b >= b
  {
    assert k * b == (k - 1) * b + b;
  }

  /** The split is the only normal decomposition of the total. */
  lemma SplitUnique(d: Hms)
    requires Normal(d)
    ensures Split(TotalOf(d)) == d
  {
    var e := Split(TotalOf(d));
    var t := TotalOf(d);
    assert t == d.hours * 3600 + (d.minutes * 60 + d.seconds);
    assert t == e.hours * 3600 + (e.minutes * 60 + e.seconds);
    EuclidUnique(t, 3600, d.hours, d.minutes * 60 + d.seconds);
    EuclidUnique(t, 3600, e.hours, e.minutes * 60 + e.seconds);
    var r := d.minutes * 60 + d.seconds;
    EuclidUnique(r, 60, d.minutes, d.seconds);
    EuclidUnique(r, 60, e.minutes, e.seconds);
  }

  /** One rendered part: the count's digits, a space and the unit, with a trailing "s"
      exactly when the count exceeds one (for a unit that does not itself end in "s"). */
  function Plural(count: nat, unit: string): (r: string)
    ensures |r| > 0 && IsDigit(r[0])
    ensures |unit| > 0 && unit[|unit| - 1] != 's' ==> (r[|r| - 1] == 's' <==> count > 1)
  {
    NatToString(count) + " " + unit + (if count > 1 then "s" else "")
  }

  /** The route's condition for showing seconds: hours and minutes both zero, or either of
      them positive. */
  predicate SecondsGuard(d: Hms) {
    (d.hours == 0 && d.minutes == 0) || (d.hours > 0 || d.minutes > 0)
  }

  /** The guard only ever fails when hours or minutes are negative, so for a non-negative
      duration a positive seconds count is always shown. */
  lemma SecondsGuardHolds(d: Hms)
    ensures d.hours >= 0 && d.minutes >= 0 ==> SecondsGuard(d)
    ensures !SecondsGuard(d) ==> d.hours < 0 || d.minutes < 0
  {
  }

  /** The list `duration_parts` as the route builds it from a split, guard included: at most
      one part per unit, each beginning with its count's digits. */
  function PartsOf(d: Hms): (p: seq<string>)
    ensures |p| <= 3
    ensures forall i :: 0 <= i < |p| ==> |p[i]| > 0 && IsDigit(p[i][0])
  {
    (if d.hours > 0 then [Plural(d.hours, "hour")] else [])
    + (if d.minutes > 0 then [Plural(d.minutes, "minute")] else [])
    + (if d.seconds > 0 && SecondsGuard(d) then [Plural(d.seconds, "second")] else [])
  }

  function Join(parts: seq<string>, sep: string): string
    decreases |parts|
  {
    if |parts| == 0 then ""
    else if |parts| == 1 then parts[0]
    else parts[0] + sep + Join(parts[1..], sep)
  }

  /** The fallback texts of the two views. */
  const UserFallback: string := "Less than a minute"
  const AdminFallback: string := "Less than a minute."

  /** The parts joined by ", ", or the fallback when there are none. With either view's fallback text, the text is
      the fallback exactly when a non-negative duration is zero seconds long, and it is never
      "N/A". */
  function DurationText(total: int, fallback: string): (t: string)
    ensures (fallback == UserFallback || fallback == AdminFallback) ==> t != "N/A"
    ensures (fallback == UserFallback || fallback == AdminFallback) && total >= 0 ==> (t == fallback <==> total == 0)
  {
    var parts := PartsOf(Split(total));
    PartsEmptyIffZero(total);
    if |parts| > 0 then
      JoinedPartsDifferFromTexts(Split(total));
      Join(parts, ", ")
    else
      fallback
  }

  // ----- an independent reference for the rendered list -----

  /** One displayed component: a count and its singular unit name. */
  datatype Component = Component(count: int, unit: string)

  /** The components of a duration, largest unit first. */
  function Components(d: Hms): seq<Component> {
    [Component(d.hours, "hour"), Component(d.minutes, "minute"), Component(d.seconds, "second")]
  }

  /** Keeps the components whose count is positive, in order. */
  function NonZero(cs: seq<Component>): (r: seq<Component>)
    decreases |cs|
    ensures forall i :: 0 <= i < |r| ==> r[i].count > 0
  {
    if |cs| == 0 then []
    else (if cs[0].count > 0 then [cs[0]] else []) + NonZero(cs[1..])
  }

  /** Each component rendered as "count unit", with an "s" exactly when the count exceeds one. */
  function Render(cs: seq<Component>): (r: seq<string>)
    requires forall i :: 0 <= i < |cs| ==> cs[i].count > 0
    ensures |r| == |cs|
    ensures forall i :: 0 <= i < |cs| ==> r[i] == Plural(cs[i].count, cs[i].unit)
  {
    seq(|cs|, i requires 0 <= i < |cs| => Plural(cs[i].count, cs[i].unit))
  }

  /** For a non-negative duration the seconds guard is always true, so the parts are exactly
      the positive components, in the order hours, minutes, seconds, each pluralised when its
      count exceeds one. */
  lemma PartsAreNonZeroComponents(total: int)
    requires total >= 0
    ensures PartsOf(Split(total)) == Render(NonZero(Components(Split(total))))
  {
    GuardedPartsAreNonZeroComponents(Split(total));
  }

  /** The whole duration text against the reference rendering: a positive duration shows the
      positive components, rendered and joined by ", "; a zero duration shows the fallback. */
  lemma DurationTextIsReference(total: int, fallback: string)
    requires total >= 0
    ensures total > 0 ==> DurationText(total, fallback) == Join(Render(NonZero(Components(Split(total)))), ", ")
    ensures total == 0 ==> DurationText(total, fallback) == fallback
  {
    PartsAreNonZeroComponents(total);
    PartsEmptyIffZero(total);
  }

  lemma GuardedPartsAreNonZeroComponents(d: Hms)
    requires SecondsGuard(d)
    ensures PartsOf(d) == Render(NonZero(Components(d)))
  {
    var cs := Components(d);
    assert cs[1..][1..][1..] == [];
    assert NonZero(cs[1..][1..]) == (if d.seconds > 0 then [cs[2]] else []);
    assert NonZero(cs[1..]) == (if d.minutes > 0 then [cs[1]] else []) + NonZero(cs[1..][1..]);
  }

  /** Every rendered part starts with a digit, so no non-empty join can be a fallback text. */
  lemma JoinStartsWithDigit(parts: seq<string>, sep: string)
    requires |parts| > 0
    requires |parts[0]| > 0 && IsDigit(parts[0][0])
    ensures |Join(parts, sep)| > 0 && IsDigit(Join(parts, sep)[0])
  {
  }

  /** For a normal split with non-negative hours, the part list is empty exactly when every
      component is zero. */
  lemma PartsOfEmptyIff(d: Hms)
    requires Normal(d) && d.hours >= 0
    ensures |PartsOf(d)| == 0 <==> d == Hms(0, 0, 0)
  {
    assert SecondsGuard(d);
  }

  /** A non-negative duration has no parts exactly when it is zero seconds long. */
  lemma PartsEmptyIffZero(total: int)
    ensures total >= 0 ==> (|PartsOf(Split(total))| == 0 <==> total == 0)
  {
    if total >= 0 {
      var d := Split(total);
      PartsOfEmptyIff(d);
      if total == 0 {
        ZeroIsAllZero(d);
      }
    }
  }

  /** The only normal decomposition of zero seconds is all zeros. */
  lemma ZeroIsAllZero(d: Hms)
    requires Normal(d) && d.hours >= 0 && TotalOf(d) == 0
    ensures d == Hms(0, 0, 0)
  {
    if d.hours > 0 {
      MulAtLeast(d.hours, 3600);
    }
  }

  /** A non-empty part list never renders as one of the fallback texts, nor as "N/A". */
  lemma JoinedPartsDifferFromTexts(d: Hms)
    requires |PartsOf(d)| > 0
    ensures Join(PartsOf(d), ", ") != UserFallback
    ensures Join(PartsOf(d), ", ") != AdminFallback
    ensures Join(PartsOf(d), ", ") != "N/A"
  {
    JoinStartsWithDigit(PartsOf(d), ", ");
    assert UserFallback[0] == 'L' && AdminFallback[0] == 'L';
  }

  /** For a negative duration the guard can be false and a positive seconds count is dropped:
      -3599 seconds splits into hours -1, minutes 0, seconds 1 and renders as the fallback. */
  lemma NegativeDurationDropsSeconds()
    ensures Split(-3599) == Hms(-1, 0, 1)
    ensures !SecondsGuard(Split(-3599))
    ensures DurationText(-3599, UserFallback) == UserFallback
  {
    SplitUnique(Hms(-1, 0, 1));
  }

  /** Ninety seconds render as "1 minute, 30 seconds". */
  lemma NinetySeconds()
    ensures DurationText(90, UserFallback) == "1 minute, 30 seconds"
  {
    SplitUnique(Hms(0, 1, 30));
    assert NatToString(30) == "30";
  }

  /** The elapsed time in fractional minutes times the rate; the rate is read as
      currency per minute, as the history views label it. */
  function Cost(totalSeconds: int, rate: real): (c: real)
    ensures totalSeconds == 0 ==> c == 0.0
    ensures totalSeconds >= 0 && rate >= 0.0 ==> c >= 0.0
    ensures c * 60.0 == (totalSeconds as real) * rate
  {
    (totalSeconds as real / 60.0) * rate
  }

  /** Ninety seconds at ten per minute cost fifteen. */
  lemma NinetySecondsAtTen()
    ensures Cost(90, 10.0) == 15.0
  {
  }

  /** One history row's duration and cost cells: "N/A" / no cost while the reservation is
      active, the computed values once it has a leaving time. */
  datatype Cells = Cells(duration: string, cost: Option<real>)

  function HistoryCells(parkingTs: int, leavingTs: Option<int>, rate: real, fallback: string): (c: Cells)
    requires fallback == UserFallback || fallback == AdminFallback
    ensures c.duration == "N/A" <==> leavingTs.None?
    ensures c.cost.None? <==> leavingTs.None?
    ensures leavingTs.Some? && leavingTs.value == parkingTs ==> c == Cells(fallback, Some(0.0))
  {
    match leavingTs
    case None => Cells("N/A", None)
    case Some(leaving) =>
      var total := leaving - parkingTs;
      Cells(DurationText(total, fallback), Some(Cost(total, rate)))
  }

}
