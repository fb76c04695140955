/** `JourneyDetailSerializer.get_travel_time`: the time between a journey's
    departure and arrival, cut into days, hours and minutes and written in
    one of three shapes. A duration is a whole number of seconds. */
module Serializers {
  import opened Wrappers
  import opened Text
  import opened Models
  import opened Calendar

  const SecondsPerHour: int := 3600
  const SecondsPerMinute: int := 60

  /** A `datetime.timedelta` as Python normalises it: whole days, and the
      seconds left over, from 0 up to a day. */
  datatype Timedelta = Timedelta(days: int, seconds: int)

  /** `arrival_time - departure_time` as a `timedelta`: the days are rounded
      down, so a negative duration has negative days and non-negative seconds. */
  function ToTimedelta(duration: int): (td: Timedelta)
    ensures 0 <= td.seconds < SecondsPerDay
    ensures td.days * SecondsPerDay + td.seconds == duration
  {
    Timedelta(duration / SecondsPerDay, duration % SecondsPerDay)
  }

  /** Only one normalised `timedelta` denotes a given duration. */
  lemma ToTimedeltaUnique(duration: int, td: Timedelta)
    requires 0 <= td.seconds < SecondsPerDay
    requires td.days * SecondsPerDay + td.seconds == duration
    ensures td == ToTimedelta(duration)
  {
    var r := ToTimedelta(duration);
    assert (td.days - r.days) * SecondsPerDay == r.seconds - td.seconds;
  }

  /** The three numbers `get_travel_time` computes. */
  datatype Parts = Parts(days: int, hours: int, minutes: int)

  /** The whole seconds that a set of parts stands for. */
  function PartsSeconds(p: Parts): int {
    p.days * SecondsPerDay + p.hours * SecondsPerHour + p.minutes * SecondsPerMinute
  }

  /** `days`, `seconds // 3600` and `(seconds % 3600) // 60`: hours and
      minutes stay within a day and an hour, and only the seconds under a
      minute are lost. */
  function TravelParts(duration: int): (p: Parts)
    ensures 0 <= p.hours < 24 && 0 <= p.minutes < 60
    ensures PartsSeconds(p) <= duration < PartsSeconds(p) + SecondsPerMinute
  {
    var td := ToTimedelta(duration);
    Parts(td.days, td.seconds / SecondsPerHour, td.seconds % SecondsPerHour / SecondsPerMinute)
  }

  /** Parts within those bounds that stand for the duration, to the minute,
      are the ones `get_travel_time` computes. */
  lemma TravelPartsUnique(duration: int, p: Parts)
    requires 0 <= p.hours < 24 && 0 <= p.minutes < 60
    requires PartsSeconds(p) <= duration < PartsSeconds(p) + SecondsPerMinute
    ensures p == TravelParts(duration)
  {
    var rest := duration - PartsSeconds(p);
    var seconds := p.hours * SecondsPerHour + p.minutes * SecondsPerMinute + rest;
    assert 0 <= seconds < SecondsPerDay;
    ToTimedeltaUnique(duration, Timedelta(p.days, seconds));
    assert seconds / SecondsPerHour == p.hours;
    assert seconds % SecondsPerHour == p.minutes * SecondsPerMinute + rest;
  }

  /** The three shapes of the travel-time text. */
  datatype TravelTime =
    | DaysHoursMinutes(days: int, hours: int, minutes: int)
    | HoursMinutes(hours: int, minutes: int)
    | Minutes(minutes: int)

  /** The whole seconds that a travel-time text shows. */
  function ShownSeconds(t: TravelTime): int {
    match t
    case DaysHoursMinutes(d, h, m) => PartsSeconds(Parts(d, h, m))
    case HoursMinutes(h, m) => PartsSeconds(Parts(0, h, m))
    case Minutes(m) => PartsSeconds(Parts(0, 0, m))
  }

  /** `get_travel_time(journey)`: days, hours and minutes once the journey
      takes two days or more; otherwise hours and minutes once the time past
      the whole days is two hours or more; otherwise minutes alone. */
  function GetTravelTime(journey: Journey): (t: TravelTime)
    ensures var duration := journey.arrivalTime - journey.departureTime;
            && (t.DaysHoursMinutes? <==> duration >= 2 * SecondsPerDay)
            && (t.HoursMinutes? <==> duration < 2 * SecondsPerDay && duration % SecondsPerDay >= 2 * SecondsPerHour)
            && (t.Minutes? <==> duration < 2 * SecondsPerDay && duration % SecondsPerDay < 2 * SecondsPerHour)
    ensures var p := TravelParts(journey.arrivalTime - journey.departureTime);
            && (t.DaysHoursMinutes? ==> t.days == p.days && t.hours == p.hours)
            && (t.HoursMinutes? ==> t.hours == p.hours)
            && t.minutes == p.minutes
  {
    var p := TravelParts(journey.arrivalTime - journey.departureTime);
    if p.days > 1 then DaysHoursMinutes(p.days, p.hours, p.minutes)
    else if p.hours > 1 then HoursMinutes(p.hours, p.minutes)
    else Minutes(p.minutes)
  }

  /** What the as-written text leaves out of a journey's duration: on a
      journey of under two days its single day (if any), and below two hours
      past the days its single hour (if any) too. */
  lemma GetTravelTimeShown(journey: Journey)
    requires journey.departureTime <= journey.arrivalTime
    ensures var duration := journey.arrivalTime - journey.departureTime;
            var p := TravelParts(duration);
            ShownSeconds(GetTravelTime(journey)) ==
              duration - duration % SecondsPerMinute
              - (if p.days <= 1 then p.days * SecondsPerDay else 0)
              - (if p.days <= 1 && p.hours <= 1 then p.hours * SecondsPerHour else 0)
  {
    var duration := journey.arrivalTime - journey.departureTime;
    var p := TravelParts(duration);
    assert duration - duration % SecondsPerMinute == PartsSeconds(p);
  }

  lemma ZeroMinutesText()
    ensures TravelTimeText(Minutes(0)) == "0 minutes"
  {
    assert Show(0) == "0";
  }

  /** A 25-hour journey is shown as "0 minutes". */
  lemma GetTravelTimeOfTwentyFiveHours(journey: Journey)
    requires journey.arrivalTime - journey.departureTime == 25 * SecondsPerHour
    ensures GetTravelTime(journey) == Minutes(0)
    ensures TravelTimeText(GetTravelTime(journey)) == "0 minutes"
  {
    var p := TravelParts(journey.arrivalTime - journey.departureTime);
    assert p == Parts(1, 1, 0) by {
      TravelPartsUnique(journey.arrivalTime - journey.departureTime, Parts(1, 1, 0));
    }
    assert GetTravelTime(journey) == Minutes(0);
    ZeroMinutesText();
  }

  /** A journey of an hour and a half is shown as "30 minutes". */
  lemma GetTravelTimeOfNinetyMinutes(journey: Journey)
    requires journey.arrivalTime - journey.departureTime == 90 * SecondsPerMinute
    ensures GetTravelTime(journey) == Minutes(30)
  {
    TravelPartsUnique(journey.arrivalTime - journey.departureTime, Parts(0, 1, 30));
  }

  /** The travel time with thresholds of one day and one hour, so that a
      part is left out only when it is zero. */
  function CorrectedTravelTime(journey: Journey): (t: TravelTime)
    ensures var p := TravelParts(journey.arrivalTime - journey.departureTime);
            && (t.DaysHoursMinutes? <==> p.days >= 1)
            && (t.Minutes? <==> p.days < 1 && p.hours < 1)
  {
    var p := TravelParts(journey.arrivalTime - journey.departureTime);
    if p.days >= 1 then DaysHoursMinutes(p.days, p.hours, p.minutes)
    else if p.hours >= 1 then HoursMinutes(p.hours, p.minutes)
    else Minutes(p.minutes)
  }

  /** The corrected text shows every whole minute of a journey that arrives
      after it departs, and so tells any two durations apart to the minute. */
  lemma CorrectedTravelTimeShowsWholeMinutes(journey: Journey)
    requires journey.departureTime <= journey.arrivalTime
    ensures var duration := journey.arrivalTime - journey.departureTime;
            ShownSeconds(CorrectedTravelTime(journey)) == duration - duration % SecondsPerMinute
  {
    var duration := journey.arrivalTime - journey.departureTime;
    assert duration - duration % SecondsPerMinute == PartsSeconds(TravelParts(duration));
  }

  // ----------------------------------------------------------------------
  // The text

  /** `f"{n} {unit}"`: the number as `str()` writes it, a space, the unit. */
  function Quantity(n: int, unit: string): (q: string)
    ensures |q| == |Show(n)| + 1 + |unit|
    ensures q[..|Show(n)|] == Show(n)
    ensures q[|Show(n)|] == ' '
    ensures q[|Show(n)| + 1..] == unit
  {
    Show(n) + " " + unit
  }

  lemma QuantityHasNoComma(lead: string, n: int, unit: string)
    requires lead == "" || lead == " "
    requires ',' !in unit
    ensures ',' !in lead + Quantity(n, unit)
  {
    var shown := Show(n);
    var piece := lead + Quantity(n, unit);
    assert piece == lead + shown + " " + unit;
    forall j | 0 <= j < |piece| ensures piece[j] != ',' {
      if j < |lead| {
        assert piece[j] == ' ';
      } else if j < |lead| + |shown| {
        assert piece[j] == shown[j - |lead|];
      } else if j == |lead| + |shown| {
        assert piece[j] == ' ';
      } else {
        assert piece[j] == unit[j - |lead| - |shown| - 1];
      }
    }
  }

  /** One comma-separated piece of the text: the quantity, after a space
      unless it comes first. */
  lemma QuantityPiece(lead: string, n: int, unit: string)
    requires lead == "" || lead == " "
    requires IsUnit(unit)
    ensures ',' !in lead + Quantity(n, unit)
    ensures Strip(lead + Quantity(n, unit)) == Quantity(n, unit)
  {
    QuantityHasNoComma(lead, n, unit);
    var q := Quantity(n, unit);
    assert q[0] == Show(n)[0] && q[|q| - 1] == unit[|unit| - 1];
    assert AllIntSpace(lead) && AllIntSpace("");
    StripPadded(lead, q, "");
    assert lead + q + "" == lead + q;
  }

  /** The number of a quantity is the text up to its first space. */
  lemma QuantityNumber(n: int, unit: string)
    ensures var q := Quantity(n, unit);
            Find(q, ' ') == |Show(n)| && ParseInt(q[..Find(q, ' ')]) == Ok(n)
  {
    var q := Quantity(n, unit);
    assert q[|Show(n)|] == ' ';
    assert forall k :: 0 <= k < |Show(n)| ==> q[k] == Show(n)[k];
    FindFirst(q, ' ', |Show(n)|);
    assert q[..|Show(n)|] == Show(n);
    ParseIntShowBare(n);
  }

  /** How many numbers a shape shows. */
  function PartCount(t: TravelTime): nat {
    match t
    case DaysHoursMinutes(_, _, _) => 3
    case HoursMinutes(_, _) => 2
    case Minutes(_) => 1
  }

  /** The text `get_travel_time` returns for a shape; every shape ends with
      the minutes. */
  function TravelTimeText(t: TravelTime): (r: string)
    ensures var q := Quantity(t.minutes, "minutes");
            |q| <= |r| && r[|r| - |q|..] == q
  {
    match t
    case DaysHoursMinutes(d, h, m) =>
      Quantity(d, "days") + ", " + Quantity(h, "hours") + ", " + Quantity(m, "minutes")
    case HoursMinutes(h, m) =>
      Quantity(h, "hours") + ", " + Quantity(m, "minutes")
    case Minutes(m) =>
      Quantity(m, "minutes")
  }

  lemma CommaSpace(a: string, b: string)
    ensures a + "," + (" " + b) == a + ", " + b
  {
  }

  lemma JoinThree(q0: string, q1: string, q2: string)
    ensures Join([q0, " " + q1, " " + q2], ",") == q0 + ", " + q1 + ", " + q2
  {
    var pieces := [q0, " " + q1, " " + q2];
    assert pieces[1..] == [" " + q1, " " + q2] && pieces[1..][1..] == [" " + q2];
    assert Join([" " + q2], ",") == " " + q2;
    assert Join(pieces[1..], ",") == " " + q1 + "," + (" " + q2);
    CommaSpace(q1, q2);
    CommaSpace(q0, q1 + ", " + q2);
    assert " " + q1 + "," + (" " + q2) == " " + (q1 + "," + (" " + q2));
    assert q0 + ", " + (q1 + ", " + q2) == q0 + ", " + q1 + ", " + q2;
  }

  lemma JoinTwo(q0: string, q1: string)
    ensures Join([q0, " " + q1], ",") == q0 + ", " + q1
  {
    assert [q0, " " + q1][1..] == [" " + q1];
    CommaSpace(q0, q1);
  }

  /** A unit word: no comma, and no whitespace at its end. */
  predicate IsUnit(unit: string) {
    unit != [] && ',' !in unit && !IsIntSpace(unit[|unit| - 1])
  }

  lemma SplitThree(q0: string, q1: string, q2: string)
    requires ',' !in q0 && ',' !in " " + q1 && ',' !in " " + q2
    ensures Split(q0 + ", " + q1 + ", " + q2, ',') == [q0, " " + q1, " " + q2]
  {
    SplitJoin([q0, " " + q1, " " + q2], ',');
    JoinThree(q0, q1, q2);
  }

  lemma SplitTwo(q0: string, q1: string)
    requires ',' !in q0 && ',' !in " " + q1
    ensures Split(q0 + ", " + q1, ',') == [q0, " " + q1]
  {
    SplitJoin([q0, " " + q1], ',');
    JoinTwo(q0, q1);
  }

  /** Split at its commas, a days-hours-minutes text has three pieces,
      each of them, stripped, a number and its unit. */
  lemma DaysHoursMinutesPieces(d: int, h: int, m: int)
    ensures var pieces := Split(Quantity(d, "days") + ", " + Quantity(h, "hours") + ", " + Quantity(m, "minutes"), ',');
            && |pieces| == 3
            && Strip(pieces[0]) == Quantity(d, "days")
            && Strip(pieces[1]) == Quantity(h, "hours")
            && Strip(pieces[2]) == Quantity(m, "minutes")
  {
    assert IsUnit("days") && IsUnit("hours") && IsUnit("minutes");
    var qd, qh, qm := Quantity(d, "days"), Quantity(h, "hours"), Quantity(m, "minutes");
    QuantityPiece("", d, "days");
    assert "" + qd == qd;
    QuantityPiece(" ", h, "hours");
    QuantityPiece(" ", m, "minutes");
    SplitThree(qd, qh, qm);
  }

  /** An hours-minutes text has two such pieces. */
  lemma HoursMinutesPieces(h: int, m: int)
    ensures var pieces := Split(Quantity(h, "hours") + ", " + Quantity(m, "minutes"), ',');
            && |pieces| == 2
            && Strip(pieces[0]) == Quantity(h, "hours")
            && Strip(pieces[1]) == Quantity(m, "minutes")
  {
    assert IsUnit("hours") && IsUnit("minutes");
    var qh, qm := Quantity(h, "hours"), Quantity(m, "minutes");
    QuantityPiece("", h, "hours");
    assert "" + qh == qh;
    QuantityPiece(" ", m, "minutes");
    SplitTwo(qh, qm);
  }

  /** A minutes text is one such piece. */
  lemma MinutesPieces(m: int)
    ensures var pieces := Split(Quantity(m, "minutes"), ',');
            && |pieces| == 1
            && Strip(pieces[0]) == Quantity(m, "minutes")
  {
    assert IsUnit("minutes");
    QuantityPiece("", m, "minutes");
    assert "" + Quantity(m, "minutes") == Quantity(m, "minutes");
    SplitJoin([Quantity(m, "minutes")], ',');
  }

  /** Split at its commas, the text has one piece per number its shape
      shows, and the last piece, stripped, is the minutes. */
  lemma TravelTimeTextPieces(t: TravelTime)
    ensures var pieces := Split(TravelTimeText(t), ',');
            |pieces| == PartCount(t) && Strip(pieces[|pieces| - 1]) == Quantity(t.minutes, "minutes")
  {
    match t
    case DaysHoursMinutes(d, h, m) => DaysHoursMinutesPieces(d, h, m);
    case HoursMinutes(h, m) => HoursMinutesPieces(h, m);
    case Minutes(m) => MinutesPieces(m);
  }
}
