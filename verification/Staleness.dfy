/** The staleness score (internal/staleness/score.go), over the reals. Times are real days. */
module Staleness {
  import opened Text

  /** None is Go's zero time. */
  datatype Item = Item(
    lastWatched: Option<real>, watchedFully: bool, watchedPartially: bool, ended: bool, monitored: bool,
    sizeBytes: int, requestedBy: string, added: Option<real>)

  datatype Weights = Weights(
    daysMaxPoints: real, daysHorizon: int, neverWatchedAfterDays: int,
    watchedFullPoints: real, watchedPartialPoints: real, endedPoints: real, continuingPoints: real,
    sizePointsPerGB: real, sizeMaxPoints: real, otherRequesterPoints: real, ownerRequesterPoints: real,
    agePointsPerDay: real, ageMaxPoints: real, candidateThreshold: real, watchlistThreshold: real, owner: string)

  function Clamp(v: real, lo: real, hi: real): real { if v < lo then lo else if v > hi then hi else v }

  function DaysScore(it: Item, w: Weights, now: real): real {
    match it.lastWatched
    case None =>
      if w.neverWatchedAfterDays <= 0 || it.added.None? then 0.0
      else if now - it.added.value > w.neverWatchedAfterDays as real then w.daysMaxPoints
      else 0.0
    case Some(last) => WatchedScore(now - last, w)
  }

  function WatchedScore(days: real, w: Weights): real {
    Fraction(days, Horizon(w)) * w.daysMaxPoints
  }

  function Horizon(w: Weights): (h: int)
    ensures h > 0
  {
    if w.daysHorizon <= 0 then 1 else w.daysHorizon
  }

  /** Days since the last watch as a part of the horizon, between 0 and 1. */
  function Fraction(days: real, horizon: int): real
    requires horizon > 0
  {
    var frac := (if days < 0.0 then 0.0 else days) / horizon as real;
    if frac > 1.0 then 1.0 else frac
  }

  function CompletionScore(it: Item, w: Weights): real {
    if it.watchedFully then w.watchedFullPoints else if it.watchedPartially then w.watchedPartialPoints else 0.0
  }

  function ArrScore(it: Item, w: Weights): real {
    if it.ended then w.endedPoints else if it.monitored then w.continuingPoints else 0.0
  }

  function SizeScore(it: Item, w: Weights): real {
    Clamp(it.sizeBytes as real / 1000000000.0 * w.sizePointsPerGB, 0.0, w.sizeMaxPoints)
  }

  function RequesterScore(it: Item, w: Weights): real {
    if it.requestedBy == "" then 0.0
    else if it.requestedBy == w.owner then w.ownerRequesterPoints
    else if it.watchedFully || it.watchedPartially then 0.0
    else w.otherRequesterPoints
  }

  function AgeScore(it: Item, w: Weights, now: real): real {
    match it.added
    case None => 0.0
    case Some(added) => Clamp((if now - added < 0.0 then 0.0 else now - added) * w.agePointsPerDay, 0.0, w.ageMaxPoints)
  }

  /** The sum before clamping. */
  function Sum(it: Item, w: Weights, now: real): real {
    DaysScore(it, w, now) + CompletionScore(it, w) + ArrScore(it, w) + SizeScore(it, w) + RequesterScore(it, w)
        + AgeScore(it, w, now)
  }

  function Total(it: Item, w: Weights, now: real): real { Clamp(Sum(it, w, now), 0.0, 100.0) }

  datatype Band = Suppressed | Watchlist | Candidate

  function BandOf(total: real, w: Weights): Band {
    if total >= w.candidateThreshold then Candidate else if total >= w.watchlistThreshold then Watchlist else Suppressed
  }

  function BandRank(b: Band): nat { match b case Suppressed => 0 case Watchlist => 1 case Candidate => 2 }

  // ----- Waiting -----

  lemma ProductMonotone(a: real, b: real, k: real)
    requires a <= b && k >= 0.0
    ensures a * k <= b * k
  {
    assert (b - a) * k >= 0.0;
  }

  lemma QuotientMonotone(a: real, b: real, k: real)
    requires a <= b && k > 0.0
    ensures a / k <= b / k
  {
    assert (b - a) / k >= 0.0;
    assert b / k - a / k == (b - a) / k;
  }

  lemma FractionMonotone(a: real, b: real, horizon: int)
    requires a <= b && horizon > 0
    ensures 0.0 <= Fraction(a, horizon) <= Fraction(b, horizon) <= 1.0
  {
    var x, y := if a < 0.0 then 0.0 else a, if b < 0.0 then 0.0 else b;
    QuotientMonotone(x, y, horizon as real);
    QuotientMonotone(0.0, x, horizon as real);
  }

  lemma NegativeProduct(x: real, k: real)
    requires x >= 0.0 && k < 0.0
    ensures if x == 0.0 then x * k == 0.0 else x * k < 0.0
  {
  }

  /** A clamped multiple of a growing quantity does not fall: a negative multiple clamps to a constant. */
  lemma ClampedMonotone(x: real, y: real, k: real, hi: real)
    requires 0.0 <= x <= y
    ensures Clamp(x * k, 0.0, hi) <= Clamp(y * k, 0.0, hi)
  {
    if k >= 0.0 {
      ProductMonotone(x, y, k);
      ProductMonotone(0.0, x, k);
    } else {
      NegativeProduct(x, k);
      NegativeProduct(y, k);
    }
  }

  /** The age component never falls, whatever the sign of its weights. */
  lemma AgeMonotone(it: Item, w: Weights, now: real, later: real)
    requires now <= later
    ensures AgeScore(it, w, now) <= AgeScore(it, w, later)
  {
    if it.added.Some? {
      var a, b := now - it.added.value, later - it.added.value;
      ClampedMonotone(if a < 0.0 then 0.0 else a, if b < 0.0 then 0.0 else b, w.agePointsPerDay, w.ageMaxPoints);
    }
  }

  lemma WatchedMonotone(a: real, b: real, w: Weights)
    requires a <= b && w.daysMaxPoints >= 0.0
    ensures WatchedScore(a, w) <= WatchedScore(b, w)
  {
    FractionMonotone(a, b, Horizon(w));
    ProductMonotone(Fraction(a, Horizon(w)), Fraction(b, Horizon(w)), w.daysMaxPoints);
  }

  lemma DaysMonotone(it: Item, w: Weights, now: real, later: real)
    requires now <= later && w.daysMaxPoints >= 0.0
    ensures DaysScore(it, w, now) <= DaysScore(it, w, later)
  {
    if it.lastWatched.Some? { WatchedMonotone(now - it.lastWatched.value, later - it.lastWatched.value, w); }
  }

  /** The sum never falls by waiting, for every item, if and only if the day weight is not negative. */
  lemma WaitingNeverHelps(w: Weights)
    ensures (forall it, now, later | now <= later :: Sum(it, w, now) <= Sum(it, w, later)) <==> w.daysMaxPoints >= 0.0
  {
    if w.daysMaxPoints >= 0.0 {
      forall it, now, later | now <= later ensures Sum(it, w, now) <= Sum(it, w, later) {
        DaysMonotone(it, w, now, later);
        AgeMonotone(it, w, now, later);
      }
    } else {
      var it := Item(Some(0.0), false, false, false, false, 0, "", None);
      var h := Horizon(w);
      assert h as real / h as real == 1.0 && 0.0 / h as real == 0.0;
      assert DaysScore(it, w, 0.0) == 0.0 * w.daysMaxPoints == 0.0;
      assert DaysScore(it, w, h as real) == 1.0 * w.daysMaxPoints == w.daysMaxPoints;
      assert Sum(it, w, 0.0) > Sum(it, w, h as real);
    }
  }

  /** So the total stays in [0, 100] and the band of an untouched item only moves towards candidate. */
  lemma BandOnlyRises(it: Item, w: Weights, now: real, later: real)
    requires now <= later && w.daysMaxPoints >= 0.0
    ensures 0.0 <= Total(it, w, now) <= Total(it, w, later) <= 100.0
    ensures BandRank(BandOf(Total(it, w, now), w)) <= BandRank(BandOf(Total(it, w, later), w))
    ensures BandOf(Total(it, w, now), w) == Candidate ==> BandOf(Total(it, w, later), w) == Candidate
    ensures BandOf(Total(it, w, now), w) == Watchlist ==> BandOf(Total(it, w, later), w) != Suppressed
  {
    DaysMonotone(it, w, now, later);
    AgeMonotone(it, w, now, later);
  }

  // ----- The shipped weights -----

  function Defaults(owner: string): Weights {
    Weights(40.0, 180, 30, 15.0, -10.0, 10.0, -15.0, 0.1, 15.0, 10.0, -5.0, 0.05, 10.0, 70.0, 50.0, owner)
  }

  lemma ComponentBounds(it: Item, now: real, owner: string)
    ensures var w := Defaults(owner);
      0.0 <= DaysScore(it, w, now) <= 40.0 && 0.0 <= SizeScore(it, w) <= 15.0 && 0.0 <= AgeScore(it, w, now) <= 10.0
  {
    if it.lastWatched.Some? { FractionMonotone(now - it.lastWatched.value, now - it.lastWatched.value, 180); }
  }

  /** The full-watch and other-requester bonuses exclude each other, so the sum stays within [-30, 90]. */
  lemma DefaultBounds(it: Item, now: real, owner: string)
    ensures -30.0 <= Sum(it, Defaults(owner), now) <= 90.0
  {
    ComponentBounds(it, now, owner);
  }

  /** Both ends are reached, so no tighter bounds exist. */
  lemma DefaultBoundsReached(owner: string)
    requires owner != ""
    ensures Sum(Item(Some(0.0), true, false, true, false, 150000000000, "", Some(0.0)), Defaults(owner), 200.0) == 90.0
    ensures Sum(Item(Some(0.0), false, true, false, true, 0, owner, Some(0.0)), Defaults(owner), 0.0) == -30.0
  {
    var w := Defaults(owner);
    var top := Item(Some(0.0), true, false, true, false, 150000000000, "", Some(0.0));
    var bottom := Item(Some(0.0), false, true, false, true, 0, owner, Some(0.0));
    assert Fraction(200.0, 180) == 1.0 && Fraction(0.0, 180) == 0.0;
    assert SizeScore(top, w) == 15.0 && SizeScore(bottom, w) == 0.0;
    assert AgeScore(top, w, 200.0) == 10.0 && AgeScore(bottom, w, 0.0) == 0.0;
  }

  // ----- The rules, one by one -----

  lemma BandMeaning(total: real, w: Weights)
    ensures BandOf(total, w) == Candidate <==> total >= w.candidateThreshold
    ensures BandOf(total, w) == Suppressed <==> total < w.candidateThreshold && total < w.watchlistThreshold
  {
  }

  /** The total is the sum, cut off at nothing and at a hundred. */
  lemma TotalRules(it: Item, w: Weights, now: real)
    ensures 0.0 <= Sum(it, w, now) <= 100.0 ==> Total(it, w, now) == Sum(it, w, now)
    ensures Sum(it, w, now) < 0.0 ==> Total(it, w, now) == 0.0
    ensures Sum(it, w, now) > 100.0 ==> Total(it, w, now) == 100.0
  {
  }

  /** Without a horizon one day is enough. */
  lemma NoHorizon(it: Item, w: Weights, now: real)
    requires it.lastWatched.Some? && w.daysHorizon <= 0
    ensures DaysScore(it, w, now) == DaysScore(it, w.(daysHorizon := 1), now)
    ensures now - it.lastWatched.value >= 1.0 ==> DaysScore(it, w, now) == w.daysMaxPoints
    ensures 0.0 <= now - it.lastWatched.value <= 1.0 ==>
              DaysScore(it, w, now) == (now - it.lastWatched.value) * w.daysMaxPoints
  {
    Share(now - it.lastWatched.value, 1);
  }

  /** Days since the last watch: a share of the points that grows evenly over the horizon and is full behind it. */
  lemma WatchedRules(it: Item, w: Weights, now: real)
    requires it.lastWatched.Some? && w.daysHorizon > 0
    ensures var days, h := now - it.lastWatched.value, w.daysHorizon as real;
      && (days <= 0.0 ==> DaysScore(it, w, now) == 0.0)
      && (days >= h ==> DaysScore(it, w, now) == w.daysMaxPoints)
      && (0.0 <= days <= h ==> DaysScore(it, w, now) * h == days * w.daysMaxPoints)
  {
    var days, h, k := now - it.lastWatched.value, w.daysHorizon as real, w.daysMaxPoints;
    Share(days, w.daysHorizon);
    if 0.0 <= days <= h { Rescale(Fraction(days, w.daysHorizon), h, days, k); }
  }

  lemma Share(days: real, horizon: int)
    requires horizon > 0
    ensures days <= 0.0 ==> Fraction(days, horizon) == 0.0
    ensures days >= horizon as real ==> Fraction(days, horizon) == 1.0
    ensures 0.0 <= days <= horizon as real ==> Fraction(days, horizon) * horizon as real == days
  {
    var h := horizon as real;
    assert 0.0 / h == 0.0 && h / h == 1.0;
    if days >= h { QuotientMonotone(h, days, h); } else if days >= 0.0 { QuotientMonotone(days, h, h); }
  }

  lemma Rescale(f: real, h: real, days: real, k: real)
    requires f * h == days
    ensures f * k * h == days * k
  {
    assert f * k * h == f * h * k;
  }

  /** A title never watched has all the points once it has been in the library longer than the limit, and none
      before, without a limit, or with no known date. */
  lemma NeverWatchedRules(it: Item, w: Weights, now: real)
    requires it.lastWatched.None?
    ensures it.added.Some? && w.neverWatchedAfterDays > 0 && now - it.added.value > w.neverWatchedAfterDays as real ==>
              DaysScore(it, w, now) == w.daysMaxPoints
    ensures it.added.None? || w.neverWatchedAfterDays <= 0 ==> DaysScore(it, w, now) == 0.0
    ensures it.added.Some? && now - it.added.value <= w.neverWatchedAfterDays as real ==> DaysScore(it, w, now) == 0.0
  {
  }

  /** Size counts in proportion, from nothing up to the most it may. */
  lemma SizeRules(it: Item, w: Weights)
    requires w.sizeMaxPoints >= 0.0
    ensures var points := it.sizeBytes as real / 1_000_000_000.0 * w.sizePointsPerGB;
      && (0.0 <= points <= w.sizeMaxPoints ==> SizeScore(it, w) == points)
      && (points > w.sizeMaxPoints ==> SizeScore(it, w) == w.sizeMaxPoints)
      && (points < 0.0 ==> SizeScore(it, w) == 0.0)
  {
  }

  /** So does the time in the library. */
  lemma AgeRules(it: Item, w: Weights, now: real)
    requires w.ageMaxPoints >= 0.0 && w.agePointsPerDay >= 0.0
    ensures it.added.None? ==> AgeScore(it, w, now) == 0.0
    ensures it.added.Some? && now <= it.added.value ==> AgeScore(it, w, now) == 0.0
    ensures it.added.Some? && now >= it.added.value ==>
      var points := (now - it.added.value) * w.agePointsPerDay;
      AgeScore(it, w, now) == if points <= w.ageMaxPoints then points else w.ageMaxPoints
  {
    if it.added.Some? && now >= it.added.value { ProductMonotone(0.0, now - it.added.value, w.agePointsPerDay); }
  }

  /** Which fixed points apply: a full watch beats a partial one, an ended series beats a monitored one, the owner's
      request counts whatever was watched, and another's only while nothing was. */
  lemma FixedRules(it: Item, w: Weights)
    ensures it.watchedFully ==> CompletionScore(it, w) == w.watchedFullPoints
    ensures !it.watchedFully && it.watchedPartially ==> CompletionScore(it, w) == w.watchedPartialPoints
    ensures !it.watchedFully && !it.watchedPartially ==> CompletionScore(it, w) == 0.0
    ensures it.ended ==> ArrScore(it, w) == w.endedPoints
    ensures !it.ended && it.monitored ==> ArrScore(it, w) == w.continuingPoints
    ensures !it.ended && !it.monitored ==> ArrScore(it, w) == 0.0
    ensures it.requestedBy == "" ==> RequesterScore(it, w) == 0.0
    ensures it.requestedBy != "" && it.requestedBy == w.owner ==> RequesterScore(it, w) == w.ownerRequesterPoints
    ensures it.requestedBy != "" && it.requestedBy != w.owner && (it.watchedFully || it.watchedPartially) ==>
              RequesterScore(it, w) == 0.0
    ensures it.requestedBy != "" && it.requestedBy != w.owner && !it.watchedFully && !it.watchedPartially ==>
              RequesterScore(it, w) == w.otherRequesterPoints
  {
  }

  /** With the shipped weights: half a horizon of 180 days is half of 40 points, a title never watched has its 40
      from the 31st day on, ten gigabytes are one point, a hundred days in the library five; the bands start at 50
      and 70. */
  lemma DefaultExamples(it: Item, owner: string)
    ensures var w := Defaults(owner);
      && DaysScore(it.(lastWatched := Some(0.0)), w, 90.0) == 20.0
      && DaysScore(it.(lastWatched := None, added := Some(0.0)), w, 31.0) == 40.0
      && DaysScore(it.(lastWatched := None, added := Some(0.0)), w, 30.0) == 0.0
      && SizeScore(it.(sizeBytes := 10_000_000_000), w) == 1.0
      && AgeScore(it.(added := Some(0.0)), w, 100.0) == 5.0
      && BandOf(70.0, w) == Candidate && BandOf(69.9, w) == Watchlist
      && BandOf(50.0, w) == Watchlist && BandOf(49.9, w) == Suppressed
  {
    var w := Defaults(owner);
    WatchedRules(it.(lastWatched := Some(0.0)), w, 90.0);
    SizeRules(it.(sizeBytes := 10_000_000_000), w);
    AgeRules(it.(added := Some(0.0)), w, 100.0);
  }
}
