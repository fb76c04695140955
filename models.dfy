/** The booking domain: stations, routes, train types, trains, crew,
    journeys, orders and tickets, with the two model validators and the
    text each entity shows itself as. A foreign key is held either as the
    referenced row (when the code reads its fields) or as its id. Moments
    are whole seconds since 1970-01-01T00:00:00 UTC. */
module Models {
  import opened Wrappers
  import opened Text

  datatype Station = Station(id: int, name: string)

  datatype Route = Route(id: int, source: Station, destination: Station, distance: int)

  datatype TrainType = TrainType(id: int, name: string)

  datatype Train = Train(id: int, name: string, cargoNum: int, placesInCargo: int, trainType: TrainType)

  datatype Crew = Crew(id: int, firstName: string, lastName: string)

  datatype Journey = Journey(
    id: int,
    route: Route,
    train: Train,
    departureTime: int,
    arrivalTime: int,
    crew: seq<Crew>)

  /** An order belongs to the user whose id is `user`. */
  datatype Order = Order(id: int, createdAt: int, user: int)

  /** A ticket refers to its journey and its order by id. */
  datatype Ticket = Ticket(id: int, cargo: int, seat: int, journey: int, order: int)

  /** Django's `ValidationError`. */
  datatype ValidationError = ValidationError(message: string)

  const SameStationsMessage: string := "Source and destination stations cannot be the same"
  const ArrivalOrderMessage: string := "Arrival time must be after departure time"

  // ----------------------------------------------------------------------
  // Validators

  /** `Route.clean()`: Django compares two saved stations by primary key, so
      the route is refused exactly when both ends are the same station. */
  function CleanRoute(route: Route): (o: Outcome<ValidationError>)
    ensures o.Fail? <==> route.source.id == route.destination.id
    ensures o.Fail? ==> o.error == ValidationError(SameStationsMessage)
  {
    if route.source.id == route.destination.id then Fail(ValidationError(SameStationsMessage)) else Pass
  }

  /** `Journey.clean()`: a journey must arrive strictly after it departs. */
  function CleanJourney(journey: Journey): (o: Outcome<ValidationError>)
    ensures o.Pass? <==> journey.departureTime < journey.arrivalTime
    ensures o.Fail? ==> o.error == ValidationError(ArrivalOrderMessage)
  {
    if journey.arrivalTime <= journey.departureTime then Fail(ValidationError(ArrivalOrderMessage)) else Pass
  }

  // ----------------------------------------------------------------------
  // Derived text

  /** `Route.complete_path`: the source name, " - ", the destination name. */
  function CompletePath(route: Route): (s: string)
    ensures |s| == |route.source.name| + 3 + |route.destination.name|
    ensures s[..|route.source.name|] == route.source.name
    ensures s[|route.source.name|..|route.source.name| + 3] == " - "
    ensures s[|route.source.name| + 3..] == route.destination.name
  {
    route.source.name + " - " + route.destination.name
  }

  /** `str(route)`, which the source writes out separately from
      `complete_path` and which gives the same text. */
  function RouteText(route: Route): (s: string)
    ensures s == CompletePath(route)
  {
    route.source.name + " - " + route.destination.name
  }

  /** `Crew.full_name`: the first name, a space, the last name. */
  function FullName(crew: Crew): (s: string)
    ensures |s| == |crew.firstName| + 1 + |crew.lastName|
    ensures s[..|crew.firstName|] == crew.firstName
    ensures s[|crew.firstName|] == ' '
    ensures s[|crew.firstName| + 1..] == crew.lastName
  {
    crew.firstName + " " + crew.lastName
  }

  /** `str(crew)`, written out separately from `full_name` in the source
      and giving the same text. */
  function CrewText(crew: Crew): (s: string)
    ensures s == FullName(crew)
  {
    crew.firstName + " " + crew.lastName
  }

  /** `str(journey)`: `str()` of its route, a space, the train name. */
  function JourneyText(journey: Journey): (s: string)
    ensures var path := CompletePath(journey.route);
            |s| == |path| + 1 + |journey.train.name| && s[..|path|] == path && s[|path|] == ' ' &&
            s[|path| + 1..] == journey.train.name
  {
    RouteText(journey.route) + " " + journey.train.name
  }

  /** `str(ticket)`: `str()` of its journey's route, a space, the seat number. */
  function TicketText(ticket: Ticket, journey: Journey): (s: string)
    requires ticket.journey == journey.id
    ensures var path := CompletePath(journey.route);
            |s| > |path| + 1 && s[..|path|] == path && s[|path|] == ' ' &&
            ParseInt(s[|path| + 1..]) == Ok(ticket.seat)
  {
    var path := RouteText(journey.route);
    var shown := Show(ticket.seat);
    var s := path + " " + shown;
    assert s[..|path|] == path && s[|path|] == ' ';
    assert s[|path| + 1..] == shown;
    ParseIntShowBare(ticket.seat);
    s
  }
}
