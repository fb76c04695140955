/** The list views' querysets: the route, train, journey and order filters
    driven by query parameters, the id-list parser they use, and the
    `tickets_available` figure the journey list carries. A table is a
    sequence of rows; a query parameter is `None` when the request does not
    carry it. Every `ValueError` the parameters can raise is an `Err`. */
module Views {
  import opened Wrappers
  import opened Text
  import opened Calendar
  import opened Querysets
  import opened Models

  /** `if param:` — a parameter is used only when present and non-empty. */
  predicate Given(param: Option<string>) {
    param.Some? && param.value != ""
  }

  // ----------------------------------------------------------------------
  // `RouteViewSet._params_to_ints`

  /** A list comprehension whose items may raise: the values when every
      item has one, otherwise the first item's error, as Python evaluates
      the items in order. */
  function Collect(items: seq<Result<int, ValueError>>): (r: Result<seq<int>, ValueError>)
    ensures r.Ok? <==> forall i :: 0 <= i < |items| ==> items[i].Ok?
    ensures r.Ok? ==> |r.value| == |items| && forall i :: 0 <= i < |items| ==> r.value[i] == items[i].value
    ensures r.Err? ==> exists i :: 0 <= i < |items| && items[i] == Err(r.error) &&
                                   forall j :: 0 <= j < i ==> items[j].Ok?
  {
    if items == [] then
      Ok([])
    else
      var tail := Collect(items[1..]);
      assert forall i :: 0 < i < |items| ==> items[i] == items[1..][i - 1];
      if items[0].Err? then
        Err(items[0].error)
      else if tail.Err? then
        var k :| 0 <= k < |items[1..]| && items[1..][k] == Err(tail.error) &&
                 forall j :: 0 <= j < k ==> items[1..][j].Ok?;
        assert items[k + 1] == Err(tail.error);
        Err(tail.error)
      else
        Ok([items[0].value] + tail.value)
  }

  /** `int()` of each piece, in order, each either a value or its error. */
  function ParseAll(pieces: seq<string>): (items: seq<Result<int, ValueError>>)
    ensures |items| == |pieces|
    ensures forall i :: 0 <= i < |pieces| ==> items[i] == ParseInt(pieces[i])
  {
    if pieces == [] then []
    else
      var items := [ParseInt(pieces[0])] + ParseAll(pieces[1..]);
      assert forall i :: 0 < i < |pieces| ==> pieces[i] == pieces[1..][i - 1];
      items
  }

  /** `[int(piece) for piece in pieces]`: the values when every piece is an
      integer literal, otherwise the error of the first piece that is not. */
  function ParseEach(pieces: seq<string>): (r: Result<seq<int>, ValueError>)
    ensures r.Ok? <==> forall i :: 0 <= i < |pieces| ==> ParseInt(pieces[i]).Ok?
    ensures r.Ok? ==> |r.value| == |pieces| && forall i :: 0 <= i < |pieces| ==> r.value[i] == ParseInt(pieces[i]).value
    ensures r.Err? ==> exists i :: 0 <= i < |pieces| && ParseInt(pieces[i]) == Err(r.error) &&
                                   forall j :: 0 <= j < i ==> ParseInt(pieces[j]).Ok?
  {
    Collect(ParseAll(pieces))
  }

  /** `_params_to_ints(qs)`: `int()` of each comma-separated piece of `qs`,
      in order; whitespace around a piece is allowed, an empty piece is not. */
  function ParamsToInts(qs: string): (r: Result<seq<int>, ValueError>)
    ensures var pieces := Split(qs, ',');
            && (r.Ok? <==> forall i :: 0 <= i < |pieces| ==> ParseInt(pieces[i]).Ok?)
            && (r.Ok? ==> |r.value| == |pieces| &&
                          forall i :: 0 <= i < |pieces| ==> ParseInt(pieces[i]) == Ok(r.value[i]))
            && (r.Err? ==> exists i :: 0 <= i < |pieces| && ParseInt(pieces[i]) == Err(r.error) &&
                                       forall j :: 0 <= j < i ==> ParseInt(pieces[j]).Ok?)
  {
    var pieces := Split(qs, ',');
    var r := ParseEach(pieces);
    assert r.Ok? ==> forall i :: 0 <= i < |pieces| ==> ParseInt(pieces[i]) == Ok(r.value[i]);
    r
  }

  /** How a client writes an id list: each id with whitespace around it. */
  function WrittenIds(ids: seq<int>, before: seq<string>, after: seq<string>): (pieces: seq<string>)
    requires |before| == |ids| == |after|
    ensures |pieces| == |ids|
    ensures forall i :: 0 <= i < |ids| ==> pieces[i] == before[i] + Show(ids[i]) + after[i]
  {
    seq(|ids|, i requires 0 <= i < |ids| => before[i] + Show(ids[i]) + after[i])
  }

  lemma WrittenIdHasNoComma(before: string, id: int, after: string)
    requires AllIntSpace(before) && AllIntSpace(after)
    ensures ',' !in before + Show(id) + after
  {
    var shown := Show(id);
    var piece := before + shown + after;
    forall j | 0 <= j < |piece| ensures piece[j] != ',' {
      if j < |before| {
        assert piece[j] == before[j];
      } else if j < |before| + |shown| {
        assert piece[j] == shown[j - |before|];
      } else {
        assert piece[j] == after[j - |before| - |shown|];
      }
    }
  }

  lemma ParseEachOfParsed(pieces: seq<string>, ids: seq<int>)
    requires |pieces| == |ids|
    requires forall i :: 0 <= i < |pieces| ==> ParseInt(pieces[i]) == Ok(ids[i])
    ensures ParseEach(pieces) == Ok(ids)
  {
    var r := ParseEach(pieces);
    assert r.Ok?;
    forall i | 0 <= i < |ids| ensures r.value[i] == ids[i] {
      assert ParseInt(pieces[i]).value == ids[i];
    }
    assert r.value == ids;
  }

  /** Any non-empty list of ids written with commas, such as "2, 3", reads
      back as exactly those ids in that order. */
  lemma ParamsToIntsOfWrittenIds(ids: seq<int>, before: seq<string>, after: seq<string>)
    requires |ids| >= 1 && |before| == |ids| == |after|
    requires forall i :: 0 <= i < |ids| ==> AllIntSpace(before[i]) && AllIntSpace(after[i])
    ensures ParamsToInts(Join(WrittenIds(ids, before, after), ",")) == Ok(ids)
  {
    var pieces := WrittenIds(ids, before, after);
    forall k | 0 <= k < |pieces| ensures ',' !in pieces[k] {
      WrittenIdHasNoComma(before[k], ids[k], after[k]);
    }
    SplitJoin(pieces, ',');
    assert Split(Join(pieces, ","), ',') == pieces;
    forall i | 0 <= i < |pieces| ensures ParseInt(pieces[i]) == Ok(ids[i]) {
      ParseIntShow(ids[i], before[i], after[i]);
    }
    ParseEachOfParsed(pieces, ids);
  }

  /** An empty piece, as in "1,,2" or a trailing comma, makes the list an error. */
  lemma ParamsToIntsRejectsEmptyPiece(qs: string, i: int)
    requires 0 <= i < |Split(qs, ',')| && AllIntSpace(Split(qs, ',')[i])
    ensures ParamsToInts(qs).Err?
  {
    var pieces := Split(qs, ',');
    ParseIntRejectsBlank(pieces[i]);
    assert !ParseInt(pieces[i]).Ok?;
  }

  // ----------------------------------------------------------------------
  // `RouteViewSet.get_queryset`

  /** The ids a `source` or `destination` parameter lists, `None` when the
      parameter is not given (and so never parsed). */
  function IdList(param: Option<string>): (r: Result<Option<seq<int>>, ValueError>)
    ensures !Given(param) ==> r == Ok(None)
    ensures Given(param) ==> (r.Ok? <==> ParamsToInts(param.value).Ok?)
    ensures Given(param) && r.Ok? ==> r.value == Some(ParamsToInts(param.value).value)
  {
    if Given(param) then
      var ids :- ParamsToInts(param.value);
      Ok(Some(ids))
    else
      Ok(None)
  }

  /** A route survives a given id list when its station's id is among them. */
  predicate Listed(id: int, ids: Option<seq<int>>) {
    ids.None? || id in ids.value
  }

  /** The routes listed for `?source=...&destination=...`, `.distinct()`. */
  function RouteQueryset(routes: seq<Route>, source: Option<string>, destination: Option<string>)
    : (r: Result<seq<Route>, ValueError>)
    ensures r.Err? <==> (Given(source) && ParamsToInts(source.value).Err?) ||
                        (Given(destination) && ParamsToInts(destination.value).Err?)
    ensures r.Ok? ==> forall x :: x in r.value <==>
                        && x in routes
                        && (Given(source) ==> x.source.id in ParamsToInts(source.value).value)
                        && (Given(destination) ==> x.destination.id in ParamsToInts(destination.value).value)
    ensures !Given(source) && !Given(destination) ==> r == Ok(Distinct(routes))
  {
    var sourceIds :- IdList(source);
    var destinationIds :- IdList(destination);
    var bySource := Where(routes, (x: Route) => Listed(x.source.id, sourceIds));
    var byDestination := Where(bySource, (x: Route) => Listed(x.destination.id, destinationIds));
    WhereMembers(routes, (x: Route) => Listed(x.source.id, sourceIds));
    WhereMembers(bySource, (x: Route) => Listed(x.destination.id, destinationIds));
    if sourceIds.None? && destinationIds.None? then
      WhereOfAll(routes, (x: Route) => Listed(x.source.id, sourceIds));
      WhereOfAll(bySource, (x: Route) => Listed(x.destination.id, destinationIds));
      Ok(Distinct(byDestination))
    else
      Ok(Distinct(byDestination))
  }

  /** Route listing keeps table order and lists each route once. */
  lemma RouteQuerysetOrdered(routes: seq<Route>, source: Option<string>, destination: Option<string>)
    ensures var r := RouteQueryset(routes, source, destination);
            r.Ok? ==> IsSubsequence(r.value, routes) && NoDuplicates(r.value)
  {
    if RouteQueryset(routes, source, destination).Ok? {
      var sourceIds := IdList(source).value;
      var destinationIds := IdList(destination).value;
      var bySource := Where(routes, (x: Route) => Listed(x.source.id, sourceIds));
      var byDestination := Where(bySource, (x: Route) => Listed(x.destination.id, destinationIds));
      WhereIsSubsequence(routes, (x: Route) => Listed(x.source.id, sourceIds));
      WhereIsSubsequence(bySource, (x: Route) => Listed(x.destination.id, destinationIds));
      DistinctIsSubsequence(byDestination);
      SubsequenceTransitive(Distinct(byDestination), byDestination, bySource);
      SubsequenceTransitive(Distinct(byDestination), bySource, routes);
    }
  }

  /** "a, b" is how a client writes the ids a and b. */
  lemma WrittenPair(a: int, b: int)
    ensures Join(WrittenIds([a, b], ["", " "], ["", ""]), ",") == Show(a) + ", " + Show(b)
  {
    var written := WrittenIds([a, b], ["", " "], ["", ""]);
    var sa, sb := Show(a), Show(b);
    assert written == [sa, " " + sb] by {
      assert "" + sa + "" == sa;
      assert " " + sb + "" == " " + sb;
    }
    assert Join([" " + sb], ",") == " " + sb;
    assert sa + "," + (" " + sb) == sa + ", " + sb;
  }

  /** "a, b" reads as the two ids a and b. */
  lemma ParamsToIntsOfPair(a: int, b: int)
    ensures ParamsToInts(Show(a) + ", " + Show(b)) == Ok([a, b])
  {
    WrittenPair(a, b);
    ParamsToIntsOfWrittenIds([a, b], ["", " "], ["", ""]);
  }

  /** A source list that reads as `ids` keeps exactly the routes leaving
      one of those stations. */
  lemma RouteQuerysetBySource(routes: seq<Route>, qs: string, ids: seq<int>)
    requires qs != "" && ParamsToInts(qs) == Ok(ids)
    ensures var r := RouteQueryset(routes, Some(qs), None);
            r.Ok? && forall x :: x in r.value <==> x in routes && x.source.id in ids
  {
    assert Given(Some(qs));
  }

  /** Membership in the two-id list `[a, b]`. */
  lemma ListedInPair(xs: seq<Route>, routes: seq<Route>, a: int, b: int)
    requires forall x :: x in xs <==> x in routes && x.source.id in [a, b]
    ensures forall x :: x in xs <==> x in routes && (x.source.id == a || x.source.id == b)
  {
  }

  /** The two source-filter scenarios of the route tests: a list of two
      source ids keeps exactly the routes from those stations. */
  lemma RouteQuerysetBySourceList(routes: seq<Route>, a: int, b: int)
    ensures var r := RouteQueryset(routes, Some(Show(a) + ", " + Show(b)), None);
            r.Ok? && forall x :: x in r.value <==> x in routes && (x.source.id == a || x.source.id == b)
  {
    var qs := Show(a) + ", " + Show(b);
    ParamsToIntsOfPair(a, b);
    RouteQuerysetBySource(routes, qs, [a, b]);
    ListedInPair(RouteQueryset(routes, Some(qs), None).value, routes, a, b);
  }

  // ----------------------------------------------------------------------
  // `TrainViewSet.get_queryset`

  /** `int(param)` when the parameter is given, `None` otherwise. */
  function IdParam(param: Option<string>): (r: Result<Option<int>, ValueError>)
    ensures !Given(param) ==> r == Ok(None)
    ensures Given(param) ==> (r.Ok? <==> ParseInt(param.value).Ok?)
    ensures Given(param) && r.Ok? ==> r.value == Some(ParseInt(param.value).value)
  {
    if Given(param) then
      var id :- ParseInt(param.value);
      Ok(Some(id))
    else
      Ok(None)
  }

  /** `name__icontains`: the name contains the text, ignoring ASCII case. */
  predicate NameMatches(name: string, text: Option<string>) {
    !Given(text) || Contains(Lower(name), Lower(text.value))
  }

  predicate IdMatches(id: int, wanted: Option<int>) {
    wanted.None? || id == wanted.value
  }

  /** The trains listed for `?name=...&train_type=...`, `.distinct()`. */
  function TrainQueryset(trains: seq<Train>, name: Option<string>, trainType: Option<string>)
    : (r: Result<seq<Train>, ValueError>)
    ensures r.Err? <==> Given(trainType) && ParseInt(trainType.value).Err?
    ensures r.Ok? ==> forall x :: x in r.value <==>
                        && x in trains
                        && (Given(name) ==> Contains(Lower(x.name), Lower(name.value)))
                        && (Given(trainType) ==> x.trainType.id == ParseInt(trainType.value).value)
    ensures !Given(name) && !Given(trainType) ==> r == Ok(Distinct(trains))
  {
    var typeId :- IdParam(trainType);
    var byName := Where(trains, (x: Train) => NameMatches(x.name, name));
    var byType := Where(byName, (x: Train) => IdMatches(x.trainType.id, typeId));
    WhereMembers(trains, (x: Train) => NameMatches(x.name, name));
    WhereMembers(byName, (x: Train) => IdMatches(x.trainType.id, typeId));
    if !Given(name) && typeId.None? then
      WhereOfAll(trains, (x: Train) => NameMatches(x.name, name));
      WhereOfAll(byName, (x: Train) => IdMatches(x.trainType.id, typeId));
      Ok(Distinct(byType))
    else
      Ok(Distinct(byType))
  }

  /** Train listing keeps table order and lists each train once. */
  lemma TrainQuerysetOrdered(trains: seq<Train>, name: Option<string>, trainType: Option<string>)
    ensures var r := TrainQueryset(trains, name, trainType);
            r.Ok? ==> IsSubsequence(r.value, trains) && NoDuplicates(r.value)
  {
    if TrainQueryset(trains, name, trainType).Ok? {
      var typeId := IdParam(trainType).value;
      var byName := Where(trains, (x: Train) => NameMatches(x.name, name));
      var byType := Where(byName, (x: Train) => IdMatches(x.trainType.id, typeId));
      WhereIsSubsequence(trains, (x: Train) => NameMatches(x.name, name));
      WhereIsSubsequence(byName, (x: Train) => IdMatches(x.trainType.id, typeId));
      DistinctIsSubsequence(byType);
      SubsequenceTransitive(Distinct(byType), byType, byName);
      SubsequenceTransitive(Distinct(byType), byName, trains);
    }
  }

  /** `train_type` takes a single id: a comma-separated list of two ids,
      as one of the train tests sends, raises `ValueError`. */
  lemma TrainQuerysetRejectsIdList(trains: seq<Train>, a: int, b: int)
    ensures TrainQueryset(trains, None, Some(Show(a) + ", " + Show(b))).Err?
  {
    var t := Show(a) + ", " + Show(b);
    assert t[|Show(a)|] == ',';
    ParseIntRejectsComma(t, |Show(a)|);
  }

  // ----------------------------------------------------------------------
  // `JourneyViewSet.get_queryset`

  /** The date a `departure_time` parameter names, when given. */
  function DateParam(param: Option<string>): (r: Result<Option<Date>, ValueError>)
    ensures !Given(param) ==> r == Ok(None)
    ensures Given(param) ==> (r.Ok? <==> ParseDate(param.value).Ok?)
    ensures Given(param) && r.Ok? ==> r.value == Some(ParseDate(param.value).value)
  {
    if Given(param) then
      var date :- ParseDate(param.value);
      Ok(Some(date))
    else
      Ok(None)
  }

  predicate DepartsOn(departureTime: int, date: Option<Date>) {
    date.None? || FallsOn(departureTime, date.value)
  }

  /** The journeys listed for `?departure_time=YYYY-MM-DD&route=...`. */
  function JourneyQueryset(journeys: seq<Journey>, departureTime: Option<string>, route: Option<string>)
    : (r: Result<seq<Journey>, ValueError>)
    ensures r.Err? <==> (Given(departureTime) && ParseDate(departureTime.value).Err?) ||
                        (Given(route) && ParseInt(route.value).Err?)
    ensures r.Ok? ==> forall x :: x in r.value <==>
                        && x in journeys
                        && (Given(departureTime) ==> FallsOn(x.departureTime, ParseDate(departureTime.value).value))
                        && (Given(route) ==> x.route.id == ParseInt(route.value).value)
    ensures !Given(departureTime) && !Given(route) ==> r == Ok(journeys)
  {
    var date :- DateParam(departureTime);
    var routeId :- IdParam(route);
    var byDate := Where(journeys, (x: Journey) => DepartsOn(x.departureTime, date));
    var byRoute := Where(byDate, (x: Journey) => IdMatches(x.route.id, routeId));
    WhereMembers(journeys, (x: Journey) => DepartsOn(x.departureTime, date));
    WhereMembers(byDate, (x: Journey) => IdMatches(x.route.id, routeId));
    if date.None? && routeId.None? then
      WhereOfAll(journeys, (x: Journey) => DepartsOn(x.departureTime, date));
      WhereOfAll(byDate, (x: Journey) => IdMatches(x.route.id, routeId));
      Ok(byRoute)
    else
      Ok(byRoute)
  }

  /** Filtering by a date written as `str(date)` keeps exactly the journeys
      departing during that date's 24 hours, whatever the time of day. */
  lemma JourneyQuerysetByDate(journeys: seq<Journey>, date: Date)
    requires IsValid(date)
    ensures var r := JourneyQueryset(journeys, Some(IsoFormat(date)), None);
            r.Ok? && forall x :: x in r.value <==>
              x in journeys && DayStart(date) <= x.departureTime < DayStart(date) + SecondsPerDay
  {
    ParseIsoFormat(date);
    forall x: Journey ensures FallsOn(x.departureTime, date) <==>
                              DayStart(date) <= x.departureTime < DayStart(date) + SecondsPerDay {
      FallsOnWindow(x.departureTime, date);
    }
  }

  /** A journey departing on another date is never listed. */
  lemma JourneyQuerysetExcludesOtherDates(journeys: seq<Journey>, date: Date, other: Date, x: Journey)
    requires IsValid(date) && IsValid(other) && date != other
    requires x in journeys && FallsOn(x.departureTime, other)
    ensures var r := JourneyQueryset(journeys, Some(IsoFormat(date)), None);
            r.Ok? && x !in r.value
  {
    ParseIsoFormat(date);
    if FallsOn(x.departureTime, date) {
      FallsOnOneDate(x.departureTime, date, other);
    }
  }

  /** Journey listing keeps table order. */
  lemma JourneyQuerysetOrdered(journeys: seq<Journey>, departureTime: Option<string>, route: Option<string>)
    ensures var r := JourneyQueryset(journeys, departureTime, route);
            r.Ok? ==> IsSubsequence(r.value, journeys)
  {
    if JourneyQueryset(journeys, departureTime, route).Ok? {
      var date := DateParam(departureTime).value;
      var routeId := IdParam(route).value;
      var byDate := Where(journeys, (x: Journey) => DepartsOn(x.departureTime, date));
      var byRoute := Where(byDate, (x: Journey) => IdMatches(x.route.id, routeId));
      WhereIsSubsequence(journeys, (x: Journey) => DepartsOn(x.departureTime, date));
      WhereIsSubsequence(byDate, (x: Journey) => IdMatches(x.route.id, routeId));
      SubsequenceTransitive(byRoute, byDate, journeys);
    }
  }

  /** Listing journeys of a table without repeated rows repeats none. */
  lemma JourneyQuerysetNoDuplicates(journeys: seq<Journey>, departureTime: Option<string>, route: Option<string>)
    requires NoDuplicates(journeys)
    ensures var r := JourneyQueryset(journeys, departureTime, route);
            r.Ok? ==> NoDuplicates(r.value)
  {
    var r := JourneyQueryset(journeys, departureTime, route);
    if r.Ok? {
      var date := DateParam(departureTime).value;
      var routeId := IdParam(route).value;
      var byDate := Where(journeys, (x: Journey) => DepartsOn(x.departureTime, date));
      WhereKeepsNoDuplicates(journeys, (x: Journey) => DepartsOn(x.departureTime, date));
      WhereKeepsNoDuplicates(byDate, (x: Journey) => IdMatches(x.route.id, routeId));
    }
  }

  // ----------------------------------------------------------------------
  // `OrderViewSet.get_queryset`

  /** The orders listed for the requesting user: theirs and no one else's,
      in table order. */
  function OrderQueryset(orders: seq<Order>, user: int): (r: seq<Order>)
    ensures forall x :: x in r <==> x in orders && x.user == user
    ensures IsSubsequence(r, orders)
    ensures NoDuplicates(orders) ==> NoDuplicates(r)
  {
    WhereIsSubsequence(orders, (x: Order) => x.user == user);
    WhereMembers(orders, (x: Order) => x.user == user);
    if NoDuplicates(orders) then
      WhereKeepsNoDuplicates(orders, (x: Order) => x.user == user);
      Where(orders, (x: Order) => x.user == user)
    else
      Where(orders, (x: Order) => x.user == user)
  }

  // ----------------------------------------------------------------------
  // The `tickets_available` annotation

  /** `cargo_num * places_in_cargo`: the seats a train offers. */
  function Capacity(train: Train): int {
    train.cargoNum * train.placesInCargo
  }

  /** `Count("tickets")` for a journey: the tickets that refer to it. */
  function TicketCount(tickets: seq<Ticket>, journey: int): (n: nat)
    ensures n <= |tickets|
  {
    |Where(tickets, (t: Ticket) => t.journey == journey)|
  }

  /** `tickets_available`: the train's capacity less the tickets sold for
      the journey. Nothing stops more tickets than seats, so it can go below 0. */
  function TicketsAvailable(journey: Journey, tickets: seq<Ticket>): (n: int)
    ensures Capacity(journey.train) - |tickets| <= n <= Capacity(journey.train)
  {
    Capacity(journey.train) - TicketCount(tickets, journey.id)
  }

  /** Selling a ticket lowers its own journey's figure by exactly one and
      leaves every other journey's figure alone. */
  lemma TicketsAvailableAfterSale(journey: Journey, tickets: seq<Ticket>, sold: Ticket)
    ensures TicketsAvailable(journey, tickets + [sold]) ==
            TicketsAvailable(journey, tickets) - (if sold.journey == journey.id then 1 else 0)
  {
    WhereAppend(tickets, [sold], (t: Ticket) => t.journey == journey.id);
  }

  /** The figure depends on which tickets exist, not on the order the
      ticket table lists them in. */
  lemma TicketsAvailableIgnoresOrder(journey: Journey, tickets: seq<Ticket>, shuffled: seq<Ticket>)
    requires multiset(tickets) == multiset(shuffled)
    ensures TicketsAvailable(journey, tickets) == TicketsAvailable(journey, shuffled)
  {
    WhereCountPermutation(tickets, shuffled, (t: Ticket) => t.journey == journey.id);
  }
}
