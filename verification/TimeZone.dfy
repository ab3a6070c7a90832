/** Broken-down time and UTC/local conversion of base/TimeZone.cc. */
module TimeZone {
  import opened Calendar

  const SECONDS_PER_DAY := 86400

  datatype DateTime = DateTime(year: int, month: int, day: int, hour: int, minute: int, second: int)

  predicate IsDateTime(dt: DateTime) {
    && IsDate(YearMonthDay(dt.year, dt.month, dt.day))
    && 0 <= dt.hour < 24 && 0 <= dt.minute < 60 && 0 <= dt.second < 60
  }

  // ---------------------------------------------------------------- seconds and broken-down time

  function BreakTime(t: int): DateTime {
    var seconds := TruncMod(t, SECONDS_PER_DAY);
    var days := TruncDiv(t, SECONDS_PER_DAY);
    var secondsInDay := if seconds < 0 then seconds + SECONDS_PER_DAY else seconds;
    var day := if seconds < 0 then days - 1 else days;
    var ymd := GetYearMonthDay(day + JULIAN_DAY_OF_1970_01_01);
    DateTime(ymd.year, ymd.month, ymd.day, secondsInDay / 60 / 60, secondsInDay / 60 % 60, secondsInDay % 60)
  }

  function FromUtcTime(dt: DateTime): int {
    var days := GetJulianDayNumber(dt.year, dt.month, dt.day) - JULIAN_DAY_OF_1970_01_01;
    days * SECONDS_PER_DAY + dt.hour * 3600 + dt.minute * 60 + dt.second
  }

  /** The first second of day -32044. */
  const FIRST_SECOND := (FIRST_DAY - JULIAN_DAY_OF_1970_01_01) * SECONDS_PER_DAY

  /** The last second of day 536838867. */
  const LAST_SECOND := (LAST_DAY - JULIAN_DAY_OF_1970_01_01) * SECONDS_PER_DAY + SECONDS_PER_DAY - 1

  lemma FloorOfTruncated(t: int)
    ensures var seconds := TruncMod(t, SECONDS_PER_DAY);
            (if seconds < 0 then seconds + SECONDS_PER_DAY else seconds) == t % SECONDS_PER_DAY
            && (if seconds < 0 then TruncDiv(t, SECONDS_PER_DAY) - 1 else TruncDiv(t, SECONDS_PER_DAY))
               == t / SECONDS_PER_DAY
  {
  }

  /** The day and the time of day of `BreakTime`, for negative times as for positive ones. */
  lemma BreakTimeParts(t: int)
    ensures var dt := BreakTime(t);
            YearMonthDay(dt.year, dt.month, dt.day) == GetYearMonthDay(t / SECONDS_PER_DAY + JULIAN_DAY_OF_1970_01_01)
    ensures var dt := BreakTime(t);
            dt.hour * 3600 + dt.minute * 60 + dt.second == t % SECONDS_PER_DAY
            && 0 <= dt.hour < 24 && 0 <= dt.minute < 60 && 0 <= dt.second < 60
  {
    hide GetYearMonthDay;
    FloorOfTruncated(t);
  }

  /** `fromUtcTime` undoes `BreakTime` on every second from day -32044 on, before and after 1970; up to day 536838867
      no intermediate value of the two calendar functions leaves 32 bits. */
  lemma SecondsRoundTrip(t: int)
    requires t >= FIRST_SECOND
    ensures IsDateTime(BreakTime(t)) && FromUtcTime(BreakTime(t)) == t
    ensures t <= LAST_SECOND ==>
      NoOverflow(t / SECONDS_PER_DAY + JULIAN_DAY_OF_1970_01_01)
      && DateFits(YearMonthDay(BreakTime(t).year, BreakTime(t).month, BreakTime(t).day))
  {
    hide GetYearMonthDay, GetJulianDayNumber, BreakTime, DateFits, NoOverflow;
    BreakTimeParts(t);
    var j := t / SECONDS_PER_DAY + JULIAN_DAY_OF_1970_01_01;
    DayNumberRoundTrip(j);
    if t <= LAST_SECOND {
      RoundTripWithoutOverflow(GetYearMonthDay(j));
    }
  }

  lemma SplitTimeOfDay(hour: int, minute: int, second: int)
    requires 0 <= hour < 24 && 0 <= minute < 60 && 0 <= second < 60
    ensures var t := hour * 3600 + minute * 60 + second;
            0 <= t < SECONDS_PER_DAY && t / 60 / 60 == hour && t / 60 % 60 == minute && t % 60 == second
  {
    assert (hour * 3600 + minute * 60 + second) / 60 == hour * 60 + minute;
  }

  lemma SplitDay(days: int, rest: int)
    requires 0 <= rest < SECONDS_PER_DAY
    ensures (days * SECONDS_PER_DAY + rest) / SECONDS_PER_DAY == days
    ensures (days * SECONDS_PER_DAY + rest) % SECONDS_PER_DAY == rest
  {
  }

  /** ... and `BreakTime` undoes `fromUtcTime` on every date and time of that range. */
  lemma DateTimeRoundTrip(dt: DateTime)
    requires IsDateTime(dt) && InRange(YearMonthDay(dt.year, dt.month, dt.day))
    ensures BreakTime(FromUtcTime(dt)) == dt
  {
    hide GetYearMonthDay, GetJulianDayNumber;
    var t := FromUtcTime(dt);
    var days := GetJulianDayNumber(dt.year, dt.month, dt.day) - JULIAN_DAY_OF_1970_01_01;
    SplitTimeOfDay(dt.hour, dt.minute, dt.second);
    SplitDay(days, dt.hour * 3600 + dt.minute * 60 + dt.second);
    FloorOfTruncated(t);
    DateRoundTrip(YearMonthDay(dt.year, dt.month, dt.day));
  }

  // ---------------------------------------------------------------- the transition table

  datatype Transition = Transition(utcTime: int, localTime: int, localTimeIdx: nat)
  datatype LocalTime = LocalTime(utcOffset: int, isDst: bool, desigIdx: int)
  datatype Zone = Zone(transitions: seq<Transition>, localTimes: seq<LocalTime>)

  /** What the two adders maintain. */
  predicate WellFormed(z: Zone) {
    forall i :: 0 <= i < |z.transitions| ==>
      && z.transitions[i].localTimeIdx < |z.localTimes|
      && z.transitions[i].localTime == z.transitions[i].utcTime + z.localTimes[z.transitions[i].localTimeIdx].utcOffset
  }

  class Data {
    var transitions: seq<Transition>
    var localTimes: seq<LocalTime>

    function Table(): Zone
      reads this
    {
      Zone(transitions, localTimes)
    }

    constructor ()
      ensures Table() == Zone([], [])
    {
      transitions, localTimes := [], [];
    }

    method AddLocalTime(utcOffset: int, isDst: bool, desigIdx: int)
      modifies this
      ensures transitions == old(transitions)
      ensures localTimes == old(localTimes) + [LocalTime(utcOffset, isDst, desigIdx)]
      ensures old(WellFormed(Table())) ==> WellFormed(Table())
    {
      localTimes := localTimes + [LocalTime(utcOffset, isDst, desigIdx)];
    }

    /** `vector::at` throws on an index outside the table, leaving it as it was. */
    method AddTransition(utcTime: int, localTimeIdx: int) returns (ok: bool)
      modifies this
      ensures ok <==> 0 <= localTimeIdx < |old(localTimes)|
      ensures localTimes == old(localTimes)
      ensures !ok ==> transitions == old(transitions)
      ensures ok ==>
        transitions == old(transitions)
          + [Transition(utcTime, utcTime + localTimes[localTimeIdx].utcOffset, localTimeIdx)]
      ensures old(WellFormed(Table())) ==> WellFormed(Table())
    {
      ok := 0 <= localTimeIdx < |localTimes|;
      if ok {
        transitions := transitions
          + [Transition(utcTime, utcTime + localTimes[localTimeIdx].utcOffset, localTimeIdx)];
      }
    }
  }

  /** The first index whose key exceeds `x`. */
  function UpperBound(keys: seq<int>, x: int): (u: nat)
    ensures u <= |keys|
    ensures forall i :: 0 <= i < u ==> keys[i] <= x
    ensures u < |keys| ==> x < keys[u]
  {
    if |keys| == 0 || x < keys[0] then 0 else 1 + UpperBound(keys[1..], x)
  }

  predicate Ascending(keys: seq<int>) {
    forall i, j :: 0 <= i < j < |keys| ==> keys[i] < keys[j]
  }

  /** The binary search behind `std::upper_bound`. */
  method UpperBoundSearch(keys: seq<int>, x: int) returns (u: nat)
    requires Ascending(keys)
    ensures u == UpperBound(keys, x)
  {
    u := 0;
    var count := |keys|;
    while count > 0
      invariant 0 <= count && u + count <= |keys|
      invariant forall i :: 0 <= i < u ==> keys[i] <= x
      invariant forall i :: u + count <= i < |keys| ==> x < keys[i]
    {
      var step := count / 2;
      if x < keys[u + step] {
        count := step;
      } else {
        u, count := u + step + 1, count - step - 1;
      }
    }
    UpperBoundUnique(keys, x, u);
  }

  function UtcKeys(z: Zone): (keys: seq<int>) {
    seq(|z.transitions|, i requires 0 <= i < |z.transitions| => z.transitions[i].utcTime)
  }

  function LocalKeys(z: Zone): (keys: seq<int>) {
    seq(|z.transitions|, i requires 0 <= i < |z.transitions| => z.transitions[i].localTime)
  }

  /** `localtimes.front()` must exist, and the search needs sorted keys. */
  predicate Usable(z: Zone) {
    WellFormed(z) && z.localTimes != []
  }

  function OffsetOf(z: Zone, tr: Transition): int
    requires tr.localTimeIdx < |z.localTimes|
  {
    z.localTimes[tr.localTimeIdx].utcOffset
  }

  // ---------------------------------------------------------------- findLocalTime and the conversions

  function FindOffsetAtUtc(z: Zone, utcTime: int): int
    requires Usable(z)
  {
    if z.transitions == [] || utcTime < z.transitions[0].utcTime then z.localTimes[0].utcOffset
    else
      var u := UpperBound(UtcKeys(z), utcTime);
      OffsetOf(z, z.transitions[u - 1])
  }

  function FindOffsetAtLocal(z: Zone, localTime: int, postTransition: bool): int
    requires Usable(z)
  {
    if z.transitions == [] || localTime < z.transitions[0].localTime then z.localTimes[0].utcOffset
    else
      var u := UpperBound(LocalKeys(z), localTime);
      if u == |z.transitions| then OffsetOf(z, z.transitions[u - 1])
      else
        var prior := z.transitions[u - 1];
        var priorSecond := z.transitions[u].utcTime - 1 + OffsetOf(z, prior);
        if priorSecond < localTime then
          if postTransition then OffsetOf(z, z.transitions[u]) else OffsetOf(z, prior)
        else
          var v := u - 1;
          var prior' := if v != 0 then z.transitions[v - 1] else prior;
          var priorSecond' := if v != 0 then z.transitions[v].utcTime - 1 + OffsetOf(z, prior') else priorSecond;
          if localTime <= priorSecond' then
            if postTransition then OffsetOf(z, z.transitions[v]) else OffsetOf(z, prior')
          else OffsetOf(z, z.transitions[v])
  }

  function ToLocalTime(z: Zone, seconds: int): DateTime
    requires Usable(z)
  {
    BreakTime(seconds + FindOffsetAtUtc(z, seconds))
  }

  function FromLocalTime(z: Zone, local: DateTime, postTransition: bool): int
    requires Usable(z)
  {
    FromUtcTime(local) - FindOffsetAtLocal(z, FromUtcTime(local), postTransition)
  }

  // ---------------------------------------------------------------- segments, folds and gaps

  /** The offset in force after transition `i`; -1 stands for the time before the first one. */
  function Offset(z: Zone, i: int): int
    requires Usable(z) && -1 <= i < |z.transitions|
  {
    if i == -1 then z.localTimes[0].utcOffset else OffsetOf(z, z.transitions[i])
  }

  function Utc(z: Zone, i: nat): int
    requires i < |z.transitions|
  {
    z.transitions[i].utcTime
  }

  /** Neighbouring transitions lie further apart than any two of the three offsets around them. */
  predicate WellSpaced(z: Zone)
    requires Usable(z)
  {
    forall i, a, b :: 0 <= i < |z.transitions| - 1 && i - 1 <= a <= i + 1 && i - 1 <= b <= i + 1 ==>
      Utc(z, i + 1) - Utc(z, i) > Offset(z, a) - Offset(z, b)
  }

  /** The transition in force at UTC second `t`, or -1. */
  function Segment(z: Zone, t: int): (k: int)
    ensures -1 <= k < |z.transitions|
  {
    UpperBound(UtcKeys(z), t) - 1
  }

  function LocalSeconds(z: Zone, t: int): int
    requires Usable(z)
  {
    t + Offset(z, Segment(z, t))
  }

  /** `t` comes before a fold transition and its local time occurs again after it. */
  predicate InEarlierHalf(z: Zone, t: int)
    requires Usable(z)
  {
    var k := Segment(z, t);
    k + 1 < |z.transitions| && z.transitions[k + 1].localTime <= LocalSeconds(z, t)
  }

  /** `t` comes after a fold transition and its local time occurred before it. */
  predicate InLaterHalf(z: Zone, t: int)
    requires Usable(z)
  {
    var k := Segment(z, t);
    0 <= k && LocalSeconds(z, t) < Utc(z, k) + Offset(z, k - 1)
  }

  lemma LocalTimeOf(z: Zone, i: nat)
    requires Usable(z) && i < |z.transitions|
    ensures z.transitions[i].localTime == Utc(z, i) + Offset(z, i)
  {
  }

  lemma Apart(z: Zone, i: int, a: int, b: int)
    requires Usable(z) && WellSpaced(z)
    requires 0 <= i < |z.transitions| - 1 && i - 1 <= a <= i + 1 && i - 1 <= b <= i + 1
    ensures Utc(z, i + 1) - Utc(z, i) > Offset(z, a) - Offset(z, b)
  {
  }

  lemma Chain(keys: seq<int>)
    requires forall i :: 0 <= i < |keys| - 1 ==> keys[i] < keys[i + 1]
    ensures Ascending(keys)
  {
    forall i, j | 0 <= i < j < |keys|
      ensures keys[i] < keys[j]
    {
      ChainStep(keys, i, j);
    }
  }

  lemma {:induction false} ChainStep(keys: seq<int>, i: nat, j: nat)
    requires forall i :: 0 <= i < |keys| - 1 ==> keys[i] < keys[i + 1]
    requires i < j < |keys|
    ensures keys[i] < keys[j]
  {
    if i + 1 < j {
      ChainStep(keys, i, j - 1);
      assert keys[j - 1] < keys[j - 1 + 1];
    }
  }

  /** A well-spaced table is sorted both by UTC time and by local time, so both searches are defined. */
  lemma KeysAscending(z: Zone)
    requires Usable(z) && WellSpaced(z)
    ensures Ascending(UtcKeys(z)) && Ascending(LocalKeys(z))
  {
    forall i | 0 <= i < |z.transitions| - 1
      ensures Utc(z, i) < Utc(z, i + 1) && z.transitions[i].localTime < z.transitions[i + 1].localTime
    {
      Apart(z, i, i, i);
      Apart(z, i, i, i + 1);
    }
    assert forall i :: 0 <= i < |z.transitions| ==>
      UtcKeys(z)[i] == Utc(z, i) && LocalKeys(z)[i] == z.transitions[i].localTime;
    Chain(UtcKeys(z));
    Chain(LocalKeys(z));
  }

  lemma UpperBoundUnique(keys: seq<int>, x: int, u: nat)
    requires Ascending(keys) && u <= |keys|
    requires u > 0 ==> keys[u - 1] <= x
    requires u < |keys| ==> x < keys[u]
    ensures UpperBound(keys, x) == u
  {
  }

  lemma SegmentBounds(z: Zone, t: int)
    requires Usable(z)
    ensures var k := Segment(z, t);
            (k >= 0 ==> Utc(z, k) <= t) && (k + 1 < |z.transitions| ==> t < Utc(z, k + 1))
  {
    assert forall i :: 0 <= i < |z.transitions| ==> UtcKeys(z)[i] == Utc(z, i);
  }

  lemma SegmentUnique(z: Zone, t: int, k: int)
    requires Usable(z) && WellSpaced(z) && -1 <= k < |z.transitions|
    requires k >= 0 ==> Utc(z, k) <= t
    requires k + 1 < |z.transitions| ==> t < Utc(z, k + 1)
    ensures Segment(z, t) == k
  {
    KeysAscending(z);
    UpperBoundUnique(UtcKeys(z), t, k + 1);
  }

  /** What `findLocalTime(utcTime)` computes: the offset of the segment that holds the second. */
  lemma FindAtUtc(z: Zone, t: int)
    requires Usable(z)
    ensures FindOffsetAtUtc(z, t) == Offset(z, Segment(z, t))
  {
    var keys := UtcKeys(z);
    if z.transitions != [] {
      assert keys[0] == z.transitions[0].utcTime;
    }
  }

  /** Where the local search lands for the local time of a UTC second. */
  lemma LocalUpperBound(z: Zone, t: int)
    requires Usable(z) && WellSpaced(z)
    ensures UpperBound(LocalKeys(z), LocalSeconds(z, t)) == Segment(z, t) + (if InEarlierHalf(z, t) then 2 else 1)
  {
    var k := Segment(z, t);
    var n := |z.transitions|;
    SegmentBounds(z, t);
    KeysAscending(z);
    var u := k + (if InEarlierHalf(z, t) then 2 else 1);
    if InEarlierHalf(z, t) && u < n {
      Apart(z, k + 1, k, k + 2);
    }
    UpperBoundUnique(LocalKeys(z), LocalSeconds(z, t), u);
  }

  /** The offset `findLocalTime(local, postTransition)` chooses for the local time of a UTC second. */
  function ChosenSegment(z: Zone, t: int, postTransition: bool): int
    requires Usable(z)
  {
    var k, n := Segment(z, t), |z.transitions|;
    if InEarlierHalf(z, t) then (if 0 < k + 1 < n - 1 && !postTransition then k else k + 1)
    else if InLaterHalf(z, t) && 0 < k < n - 1 && !postTransition then k - 1
    else k
  }

  lemma HalvesDisjoint(z: Zone, t: int)
    requires Usable(z) && WellSpaced(z)
    ensures !(InEarlierHalf(z, t) && InLaterHalf(z, t))
  {
    var k := Segment(z, t);
    SegmentBounds(z, t);
    if 0 <= k < |z.transitions| - 1 {
      Apart(z, k, k - 1, k + 1);
    }
  }

  /** The branches of `findLocalTime(local, postTransition)` as a choice of segment, given where the search landed. */
  function Resolve(z: Zone, local: int, u: nat, postTransition: bool): (c: int)
    requires Usable(z) && u <= |z.transitions|
    ensures -1 <= c < |z.transitions|
  {
    if u == 0 || u == |z.transitions| then u - 1
    else if Utc(z, u) + Offset(z, u - 1) <= local then (if postTransition then u else u - 1)
    else if 1 < u && local < Utc(z, u - 1) + Offset(z, u - 2) && !postTransition then u - 2
    else u - 1
  }

  lemma ResolveIsCode(z: Zone, local: int, postTransition: bool)
    requires Usable(z)
    ensures FindOffsetAtLocal(z, local, postTransition)
         == Offset(z, Resolve(z, local, UpperBound(LocalKeys(z), local), postTransition))
  {
    var u := UpperBound(LocalKeys(z), local);
    if z.transitions != [] {
      assert LocalKeys(z)[0] == z.transitions[0].localTime;
      assert u == 0 <==> local < z.transitions[0].localTime;
    }
  }

  lemma ResolveEarlier(z: Zone, t: int, postTransition: bool)
    requires Usable(z) && WellSpaced(z) && InEarlierHalf(z, t)
    ensures Resolve(z, LocalSeconds(z, t), Segment(z, t) + 2, postTransition) == ChosenSegment(z, t, postTransition)
  {
    var k := Segment(z, t);
    SegmentBounds(z, t);
    if k + 2 < |z.transitions| {
      Apart(z, k + 1, k, k + 1);
    }
  }

  lemma ResolveOthers(z: Zone, t: int, postTransition: bool)
    requires Usable(z) && !InEarlierHalf(z, t)
    ensures Resolve(z, LocalSeconds(z, t), Segment(z, t) + 1, postTransition) == ChosenSegment(z, t, postTransition)
  {
    SegmentBounds(z, t);
  }

  lemma FindAtLocal(z: Zone, t: int, postTransition: bool)
    requires Usable(z) && WellSpaced(z)
    ensures -1 <= ChosenSegment(z, t, postTransition) < |z.transitions|
    ensures FindOffsetAtLocal(z, LocalSeconds(z, t), postTransition)
         == Offset(z, ChosenSegment(z, t, postTransition))
  {
    LocalUpperBound(z, t);
    ResolveIsCode(z, LocalSeconds(z, t), postTransition);
    if InEarlierHalf(z, t) {
      ResolveEarlier(z, t, postTransition);
    } else {
      ResolveOthers(z, t, postTransition);
    }
  }

  lemma ChosenIsOwn(z: Zone, t: int, postTransition: bool)
    requires Usable(z) && -1 <= ChosenSegment(z, t, postTransition) < |z.transitions|
    requires !(InEarlierHalf(z, t) && InLaterHalf(z, t))
    ensures var k, n := Segment(z, t), |z.transitions|;
            Offset(z, ChosenSegment(z, t, postTransition)) == Offset(z, k)
            <==> && (InEarlierHalf(z, t) ==> 0 < k + 1 < n - 1 && !postTransition)
                 && (InLaterHalf(z, t) ==> k == 0 || k == n - 1 || postTransition)
  {
    SegmentBounds(z, t);
  }

  lemma ThereAndBack(z: Zone, t: int, postTransition: bool)
    requires Usable(z) && LocalSeconds(z, t) >= FIRST_SECOND
    ensures FromLocalTime(z, ToLocalTime(z, t), postTransition)
         == LocalSeconds(z, t) - FindOffsetAtLocal(z, LocalSeconds(z, t), postTransition)
  {
    hide BreakTime, FromUtcTime, FindOffsetAtUtc, FindOffsetAtLocal;
    FindAtUtc(z, t);
    SecondsRoundTrip(LocalSeconds(z, t));
  }

  /** Exactly when a UTC second survives the trip to local time and back: always outside folds; in the later half of
      a fold when asked for the later reading; in the earlier half when asked for the earlier one.  The folds at the
      first and at the last transition always resolve to the later half. */
  lemma RoundTripExactly(z: Zone, t: int, postTransition: bool)
    requires Usable(z) && WellSpaced(z)
    requires LocalSeconds(z, t) >= FIRST_SECOND
    ensures var k, n := Segment(z, t), |z.transitions|;
            FromLocalTime(z, ToLocalTime(z, t), postTransition) == t
            <==> && (InEarlierHalf(z, t) ==> 0 < k + 1 < n - 1 && !postTransition)
                 && (InLaterHalf(z, t) ==> k == 0 || k == n - 1 || postTransition)
  {
    hide FromLocalTime, ToLocalTime, WellFormed, ChosenSegment, FindOffsetAtLocal, InEarlierHalf, InLaterHalf;
    ThereAndBack(z, t, postTransition);
    FindAtLocal(z, t, postTransition);
    HalvesDisjoint(z, t);
    ChosenIsOwn(z, t, postTransition);
  }

  /** A table with two folds of an hour: one at its first transition and one at its last. */
  const TWO_FOLDS := Zone(
    [Transition(1_000_000_000, 1_000_003_600, 1), Transition(2_000_000_000, 2_000_000_000, 2)],
    [LocalTime(7200, true, 0), LocalTime(3600, true, 0), LocalTime(0, false, 0)])

  /** The second before either transition never comes back, whichever reading is asked for. */
  lemma FoldsAtTheEndsAreLost(postTransition: bool)
    ensures Usable(TWO_FOLDS)
    ensures FromLocalTime(TWO_FOLDS, ToLocalTime(TWO_FOLDS, 999_999_999), postTransition) != 999_999_999
    ensures FromLocalTime(TWO_FOLDS, ToLocalTime(TWO_FOLDS, 1_999_999_999), postTransition) != 1_999_999_999
  {
    hide FromLocalTime, ToLocalTime;
    var z := TWO_FOLDS;
    TwoFoldsAreSpaced();
    EarlierHalfOf(-1, 999_999_999);
    EarlierHalfOf(0, 1_999_999_999);
    hide WellSpaced, InEarlierHalf, InLaterHalf, Segment;
    RoundTripExactly(z, 999_999_999, postTransition);
    RoundTripExactly(z, 1_999_999_999, postTransition);
  }

  lemma TwoFoldsAreSpaced()
    ensures Usable(TWO_FOLDS) && WellSpaced(TWO_FOLDS)
  {
  }

  lemma EarlierHalfOf(k: int, t: int)
    requires (k == -1 && t == 999_999_999) || (k == 0 && t == 1_999_999_999)
    ensures Usable(TWO_FOLDS) && Segment(TWO_FOLDS, t) == k && InEarlierHalf(TWO_FOLDS, t)
    ensures LocalSeconds(TWO_FOLDS, t) >= FIRST_SECOND
  {
    hide WellSpaced, Segment;
    TwoFoldsAreSpaced();
    SegmentUnique(TWO_FOLDS, t, k);
  }

  lemma ChosenSegmentHolds(z: Zone, t: int, c: int)
    requires Usable(z) && WellSpaced(z)
    requires c == Segment(z, t)
          || (c == Segment(z, t) + 1 && InEarlierHalf(z, t))
          || (c == Segment(z, t) - 1 && InLaterHalf(z, t) && c >= 0)
    ensures Segment(z, LocalSeconds(z, t) - Offset(z, c)) == c
  {
    hide WellSpaced, WellFormed, Segment;
    var k := Segment(z, t);
    SegmentBounds(z, t);
    if c == k + 1 {
      LocalTimeOf(z, k + 1);
      if k + 2 < |z.transitions| {
        Apart(z, k + 1, k, k + 1);
      }
    } else if c == k - 1 {
      Apart(z, k - 1, k - 1, k);
    }
    SegmentUnique(z, LocalSeconds(z, t) - Offset(z, c), c);
  }

  /** `fromLocalTime` returns a second with that local time whenever there is one, for both choices. */
  lemma FindsPreimage(z: Zone, t: int, postTransition: bool)
    requires Usable(z) && WellSpaced(z)
    ensures var local := LocalSeconds(z, t);
            LocalSeconds(z, local - FindOffsetAtLocal(z, local, postTransition)) == local
  {
    FindAtLocal(z, t, postTransition);
    ChosenSegmentHolds(z, t, ChosenSegment(z, t, postTransition));
  }

  predicate InGap(z: Zone, local: int, i: nat)
    requires Usable(z) && i < |z.transitions|
  {
    Utc(z, i) + Offset(z, i - 1) <= local < Utc(z, i) + Offset(z, i)
  }

  /** A local time inside a gap is the local time of no second; it is read with the offset after the gap when asked to
      (except at the first transition) and with the offset before it otherwise. */
  lemma GapResolution(z: Zone, local: int, i: nat, postTransition: bool)
    requires Usable(z) && WellSpaced(z) && i < |z.transitions| && InGap(z, local, i)
    ensures forall t :: LocalSeconds(z, t) != local
    ensures FindOffsetAtLocal(z, local, postTransition) == Offset(z, if postTransition && i > 0 then i else i - 1)
  {
    hide WellSpaced, Segment, InLaterHalf;
    GapUpperBound(z, local, i);
    if i > 0 {
      assert LocalKeys(z)[0] == z.transitions[0].localTime;
    }
    forall t
      ensures LocalSeconds(z, t) != local
    {
      if LocalSeconds(z, t) == local {
        LocalUpperBound(z, t);
        SegmentBounds(z, t);
        if 0 < i && Segment(z, t) == i - 2 {
          Apart(z, i - 1, i - 2, i - 1);
        }
      }
    }
  }

  lemma GapUpperBound(z: Zone, local: int, i: nat)
    requires Usable(z) && WellSpaced(z) && i < |z.transitions| && InGap(z, local, i)
    ensures UpperBound(LocalKeys(z), local) == i
  {
    KeysAscending(z);
    if i > 0 {
      Apart(z, i - 1, i - 1, i - 1);
    }
    UpperBoundUnique(LocalKeys(z), local, i);
  }

  /** Outside gaps every local time is that of some second. */
  lemma OutsideGaps(z: Zone, local: int) returns (t: int)
    requires Usable(z) && WellSpaced(z) && forall i :: 0 <= i < |z.transitions| ==> !InGap(z, local, i)
    ensures LocalSeconds(z, t) == local
  {
    hide WellSpaced, Segment;
    KeysAscending(z);
    var u := UpperBound(LocalKeys(z), local);
    assert forall i :: 0 <= i < |z.transitions| ==> LocalKeys(z)[i] == Utc(z, i) + Offset(z, i);
    assert u < |z.transitions| ==> !InGap(z, local, u);
    t := local - Offset(z, u - 1);
    SegmentUnique(z, t, u - 1);
  }

  lemma SameBreakTime(s: int, dt: DateTime)
    requires IsDateTime(dt) && InRange(YearMonthDay(dt.year, dt.month, dt.day))
    ensures BreakTime(s) == dt <==> s == FromUtcTime(dt)
  {
    DateTimeRoundTrip(dt);
    if BreakTime(s) == dt {
      hide GetYearMonthDay, GetJulianDayNumber, BreakTime;
      BreakTimeParts(s);
      DayNumberRoundTrip(s / SECONDS_PER_DAY + JULIAN_DAY_OF_1970_01_01);
      SecondsRoundTrip(s);
    }
  }

  /** Local time to UTC and back, on broken-down times: the same time comes back, for either reading, exactly if it is
      not in a gap. */
  lemma LocalRoundTripExactly(z: Zone, dt: DateTime, postTransition: bool)
    requires Usable(z) && WellSpaced(z)
    requires IsDateTime(dt) && InRange(YearMonthDay(dt.year, dt.month, dt.day))
    ensures ToLocalTime(z, FromLocalTime(z, dt, postTransition)) == dt
       <==> forall i :: 0 <= i < |z.transitions| ==> !InGap(z, FromUtcTime(dt), i)
  {
    hide WellSpaced, Segment, BreakTime, FromUtcTime, FindOffsetAtLocal, FindOffsetAtUtc, WellFormed, InGap;
    var local := FromUtcTime(dt);
    var back := FromLocalTime(z, dt, postTransition);
    FindAtUtc(z, back);
    SameBreakTime(LocalSeconds(z, back), dt);
    if forall i :: 0 <= i < |z.transitions| ==> !InGap(z, local, i) {
      var t := OutsideGaps(z, local);
      FindsPreimage(z, t, postTransition);
    } else {
      var i :| 0 <= i < |z.transitions| && InGap(z, local, i);
      GapResolution(z, local, i, postTransition);
    }
  }
}
