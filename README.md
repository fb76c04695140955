# Train station booking API: list filters, validators and travel time

A Dafny model of the logic in a Django/DRF train-booking backend.

- **Rows.** Stations, routes, train types, trains, crew, journeys, orders and tickets are records. A table is a sequence of rows, in table order.
- **Query parameters.** A parameter that the request does not carry is `None`. The code's `if param:` guard becomes `Given`: present and non-empty.
- **Errors.** A `ValueError` from Python's `int()` or `datetime.strptime` is an `Err` result. The few inputs on which the model and Python differ are listed under "## Left out".
- **Moments.** A moment is a whole number of seconds since 1970-01-01T00:00:00 UTC.

The files follow the program's structure:

- `wrappers.dfy`: `Option`, `Result` and `Outcome`.
- `text.dfy`: the Python string behaviour the views rely on.
  - The whitespace `int()` skips around a number. That is tab, line feed, vertical tab, form feed, carriage return and space, plus the non-ASCII characters `str.isspace()` accepts. It is not the ASCII separators 0x1c to 0x1f, although `str.isspace()` accepts them.
  - `str(n)`.
  - `int(text)` in base 10: a sign, digits, and single underscores between digits.
  - `str.split(",")` and `",".join(...)`.
  - ASCII `lower()` and substring search, for `icontains`.
- `calendar.dfy`: `datetime.strptime(s, "%Y-%m-%d").date()`, `date.toordinal()` and `date.isoformat()`. It also defines which moments fall on a date (`departure_time__date`).
- `querysets.dfy`: `.filter()` and `.distinct()` over sequences, and their order and duplicate properties.
- `models.dfy`: the entities, `Route.clean`, `Journey.clean`, `complete_path`, `full_name` and the `__str__` texts that are built from several fields.
- `views.dfy`:
  - `_params_to_ints`;
  - the `get_queryset` filters of the route, train, journey and order view sets;
  - the `tickets_available` annotation.
- `serializers.dfy`: `JourneyDetailSerializer.get_travel_time`. The shape it picks, the numbers it shows and the text it writes.

Where the code and its tests disagree, the model follows the code.

- `test_filter_train_by_train_type` (`train_station/tests/test_train_station_api.py:216-244`) sends `train_type` as a list such as `"2, 3"`.
- `TrainViewSet.get_queryset` passes that value to `int()`, which raises.
- `Views.TrainQuerysetRejectsIdList` proves that error.

## Model

| member | source | states |
|---|---|---|
| Text.Strip | train_station/views.py:95 | The text `int()` reads once the whitespace around it is skipped is no longer than the input |
| Text.StripBounds | train_station/views.py:95 | What `int()` reads is the part of the text between its leading and trailing whitespace, the whitespace being only what `int()` skips |
| Text.StripEnds | train_station/views.py:95 | The text `int()` reads neither starts nor ends with whitespace it would skip |
| Text.StripEmpty | train_station/views.py:95 | Nothing is left for `int()` to read exactly when the text is empty or all whitespace |
| Text.StripPadded | train_station/views.py:95 | Skipping removes exactly the whitespace added around a text that has none at its ends |
| Text.ShowNat | train_station/models.py:117 | `str(n)` of a non-negative number is a non-empty run of digits with no leading zero, and denotes `n` |
| Text.Show | train_station/serializers.py:136-139 | `str(n)` is non-empty, has no whitespace at its ends, and contains no comma, underscore or space |
| Text.ParseInt | train_station/views.py:95 | When `int(s)` fails, the error carries the text it was given |
| Text.ParseIntRejectsBlank | train_station/views.py:95 | `int()` of an empty or all-whitespace text raises `ValueError` |
| Text.ParseIntShow | train_station/views.py:95 | `int()` reads back `str(n)` whatever whitespace that `int()` skips surrounds it, so `int(" 3")` is 3 |
| Text.ParseIntRejectsLead | train_station/views.py:95 | `int()` raises on a text starting with anything other than skipped whitespace, a sign or a digit |
| Text.ParseIntRejectsSeparator | train_station/views.py:95 | A leading ASCII separator 0x1c to 0x1f is not skipped, so `int("\x1c5")` raises |
| Text.ParseIntShowBare | train_station/views.py:202 | `int(str(n)) == n` |
| Text.ParseIntRejectsComma | train_station/views.py:202 | `int()` of any text containing a comma raises |
| Text.Split | train_station/views.py:95 | `qs.split(",")` has at least one piece, no piece contains a comma, and joining the pieces with commas gives back `qs` |
| Text.SplitJoin | train_station/views.py:95 | Splitting at commas undoes joining pieces that contain none |
| Text.Find | train_station/views.py:95 | The position found is the first comma in the text, or the end of the text when there is none |
| Text.Lower | train_station/views.py:199 | Lowering keeps the length, lowers each letter in place, and leaves no upper-case letter |
| Text.ContainsAt | train_station/views.py:199 | The substring test holds exactly when the needle occurs at some position of the haystack |
| Calendar.ParseDate | train_station/views.py:291-293 | A parsed date is a real calendar date, and a failed parse reports the text it was given |
| Calendar.ToOrdinal | train_station/views.py:294-296 | `toordinal()` gives 1 for 0001-01-01, and at least 1 for every date from year 1 on |
| Calendar.IsoFormat | train_station/views.py:291-293 | `str(date)` is ten characters with `-` at positions 4 and 7 |
| Calendar.ParseIsoFormat | train_station/views.py:291-293 | Parsing a date written as `YYYY-MM-DD` gives back that date |
| Calendar.ToOrdinalOrdered | train_station/views.py:294-296 | A later date has a larger ordinal |
| Calendar.ToOrdinalInjective | train_station/views.py:294-296 | Two valid dates with the same ordinal are the same date |
| Calendar.FallsOnWindow | train_station/views.py:294-296 | A moment's date is `d` exactly when the moment lies within the 24 hours of `d` |
| Calendar.FallsOnOneDate | train_station/views.py:294-296 | A moment falls on a single date |
| Querysets.Where | train_station/views.py:105 | `.filter()` never returns more rows than its table has |
| Querysets.WhereMembers | train_station/views.py:105 | A filter keeps exactly the rows of the table that pass it |
| Querysets.WhereIsSubsequence | train_station/views.py:105 | A filter keeps the surviving rows in table order |
| Querysets.WhereKeepsNoDuplicates | train_station/views.py:294-298 | Filtering a table without repeated rows produces no repeated rows |
| Querysets.WhereAppend | train_station/views.py:277 | Filtering two tables one after the other gives the two filtered tables one after the other |
| Querysets.WhereCountPermutation | train_station/views.py:277 | How many rows pass a filter does not depend on the order of the table |
| Querysets.WhereOfAll | train_station/views.py:103-111 | A filter that every row passes returns the table unchanged |
| Querysets.SubsequenceTransitive | train_station/views.py:105-111 | Order is kept through a chain of filters |
| Querysets.Distinct | train_station/views.py:111 | `.distinct()` has the same members as its input, each once |
| Querysets.DistinctIsSubsequence | train_station/views.py:111 | `.distinct()` keeps table order |
| Querysets.DistinctOfNoDuplicates | train_station/views.py:204 | `.distinct()` of a table without repeated rows changes nothing |
| Models.CleanRoute | train_station/models.py:28-32 | A route is refused exactly when its source and destination are the same station, and the error has the source's message |
| Models.CleanJourney | train_station/models.py:90-94 | A journey passes exactly when it arrives strictly after it departs, and the error has the source's message |
| Models.CompletePath | train_station/models.py:34-36 | `complete_path` is the source name, then " - ", then the destination name |
| Models.RouteText | train_station/models.py:38-39 | `str(route)` equals `complete_path` |
| Models.FullName | train_station/models.py:67-69 | `full_name` is the first name, a space, and the last name |
| Models.CrewText | train_station/models.py:71-72 | `str(crew)` equals `full_name` |
| Models.JourneyText | train_station/models.py:96-97 | `str(journey)` is the route's path, a space, and the train name |
| Models.TicketText | train_station/models.py:116-117 | `str(ticket)` is the journey's route path, then a space, then a number that `int()` reads back as the seat |
| Views.Collect | train_station/views.py:95 | The list comprehension succeeds exactly when every item succeeds, with the values in order; otherwise it raises the first failing item's error |
| Views.ParseEach | train_station/views.py:95 | `[int(p) for p in pieces]` gives one integer per piece, in order, exactly when every piece parses; otherwise it gives the first failing piece's error |
| Views.ParamsToInts | train_station/views.py:92-95 | `_params_to_ints(qs)` succeeds exactly when every comma-separated piece of `qs` is an integer. It then gives one integer per piece, each `int()` of its piece, in order. Otherwise it raises the first failing piece's error |
| Views.ParamsToIntsOfWrittenIds | train_station/views.py:93-95 | Any non-empty list of ids written with commas, and with whitespace that `int()` skips around them, reads back as exactly those ids, in order |
| Views.ParamsToIntsOfPair | train_station/views.py:93-95 | `"a, b"` reads as `[a, b]` |
| Views.ParamsToIntsRejectsEmptyPiece | train_station/views.py:95 | An empty or blank piece, as in `"1,,2"` or a trailing comma, makes the whole list an error |
| Views.IdList | train_station/views.py:103-109 | An absent or empty parameter is never parsed; a given one is parsed as an id list, and its error is the view's error |
| Views.RouteQueryset | train_station/views.py:97-111 | The route list fails exactly when a given id list fails to parse. Otherwise it holds exactly the routes whose source id is in the source list when one is given, and whose destination id is in the destination list when one is given. With neither parameter it is `.distinct()` of the table |
| Views.RouteQuerysetOrdered | train_station/views.py:97-111 | The route list keeps table order and holds each route once |
| Views.RouteQuerysetBySource | train_station/views.py:103-105 | A source list that reads as `ids` keeps exactly the routes leaving one of those stations |
| Views.RouteQuerysetBySourceList | train_station/views.py:103-105 | `?source=a, b` keeps exactly the routes whose source is `a` or `b` |
| Views.IdParam | train_station/views.py:201-202 | An absent or empty parameter is never parsed; a given one is parsed with `int()` |
| Views.TrainQueryset | train_station/views.py:192-204 | The train list fails exactly when a given `train_type` is not an integer. Otherwise it holds exactly the trains whose lowered name contains the lowered `name` when that is given, and whose type id is `int(train_type)` when that is given. With neither parameter it is `.distinct()` of the table |
| Views.TrainQuerysetOrdered | train_station/views.py:192-204 | The train list keeps table order and holds each train once |
| Views.TrainQuerysetRejectsIdList | train_station/views.py:201-202 | `?train_type=a, b` raises `ValueError` |
| Views.DateParam | train_station/views.py:290-293 | An absent or empty `departure_time` is never parsed; a given one is parsed with `strptime`, and its error is the view's error |
| Views.JourneyQueryset | train_station/views.py:284-303 | The journey list fails exactly when a given date or route fails to parse. Otherwise it holds exactly the journeys departing on the given date, when given, whose route id is `int(route)`, when given. With neither parameter it is the table itself |
| Views.JourneyQuerysetByDate | train_station/views.py:290-296 | Filtering by a date written `YYYY-MM-DD` keeps exactly the journeys departing within that date's 24 hours, whatever the time of day |
| Views.JourneyQuerysetExcludesOtherDates | train_station/views.py:290-296 | A journey departing on another date is never listed |
| Views.JourneyQuerysetOrdered | train_station/views.py:284-303 | The journey list keeps table order |
| Views.JourneyQuerysetNoDuplicates | train_station/views.py:284-303 | The journey list of a table without repeated rows repeats none |
| Views.OrderQueryset | train_station/views.py:162-163 | The order list holds exactly the requesting user's orders, in table order, without repeats when the table has none |
| Views.TicketCount | train_station/views.py:277 | No more tickets refer to a journey than there are tickets |
| Views.TicketsAvailable | train_station/views.py:272-280 | The figure lies between the train's capacity less all tickets and the capacity itself |
| Views.TicketsAvailableAfterSale | train_station/views.py:272-280 | Selling a ticket lowers its own journey's figure by exactly one and leaves every other journey's figure unchanged |
| Views.TicketsAvailableIgnoresOrder | train_station/views.py:272-280 | The figure does not depend on the order of the ticket table |
| Serializers.ToTimedelta | train_station/serializers.py:131-132 | `duration.days` and `duration.seconds` are the unique whole days and the seconds in `[0, 86400)` that make up the duration |
| Serializers.ToTimedeltaUnique | train_station/serializers.py:131-132 | Only one normalised `timedelta` denotes a given duration |
| Serializers.TravelParts | train_station/serializers.py:131-134 | Hours are in `[0, 23]` and minutes in `[0, 59]`. `days*86400 + hours*3600 + minutes*60 <= duration < that + 60`, so only the seconds under a minute are lost |
| Serializers.TravelPartsUnique | train_station/serializers.py:131-134 | Parts within those bounds that stand for the duration to the minute are the ones computed |
| Serializers.GetTravelTime | train_station/serializers.py:130-139 | The days shape is chosen exactly for two days or more. The hours shape is chosen exactly under two days with two hours or more past the whole days. The minutes shape covers the rest. Every number shown is the computed part |
| Serializers.GetTravelTimeShown | train_station/serializers.py:135-139 | For a forward journey, the text shows the duration to the minute, less a single day when one is dropped and less a single hour when one is dropped |
| Serializers.GetTravelTimeOfTwentyFiveHours | train_station/serializers.py:135-139 | A 25-hour journey is shown as "0 minutes" |
| Serializers.GetTravelTimeOfNinetyMinutes | train_station/serializers.py:137-139 | A 90-minute journey is shown as 30 minutes |
| Serializers.CorrectedTravelTime | train_station/serializers.py:135-139 | With thresholds of one day and one hour, a part is left out exactly when it is zero |
| Serializers.CorrectedTravelTimeShowsWholeMinutes | train_station/serializers.py:135-139 | With those thresholds, the text shows every whole minute of a forward journey |
| Serializers.Quantity | train_station/serializers.py:136-139 | `f"{n} {unit}"` is `str(n)`, a space, and the unit |
| Serializers.TravelTimeText | train_station/serializers.py:136-139 | Every one of the three texts ends with the minutes quantity |
| Serializers.TravelTimeTextPieces | train_station/serializers.py:136-139 | Split at its commas, the text has one piece per number its shape shows, and the last piece is the minutes quantity |
| Serializers.QuantityNumber | train_station/serializers.py:136-139 | In `f"{n} {unit}"` the number runs up to the first space, and `int()` reads it back as `n` |
| Serializers.DaysHoursMinutesPieces | train_station/serializers.py:136 | The days text splits at its commas into three pieces, which strip to the days, hours and minutes quantities |
| Serializers.HoursMinutesPieces | train_station/serializers.py:138 | The hours text splits into two pieces, which strip to the hours and minutes quantities |
| Serializers.MinutesPieces | train_station/serializers.py:139 | The minutes text is a single piece, the minutes quantity |

## Left out

- Image upload (the `upload_image` actions and the image serializers): file storage and an imaging library.
- Authentication, permissions and URL routing: framework configuration. `OrderQueryset` takes the requesting user's id as a parameter.
- Admin registration, pagination classes and migrations: declarative configuration.
- The default orderings the models declare are not modelled as sorting. Journeys are ordered by descending departure, orders by descending creation time, and stations and trains by name. The model takes a table to be already in the order the database returns. The `...Ordered` lemmas say that a filter keeps that order; they do not say the order is by name or by time.
- Serializer field declarations and `perform_create`: ORM writes with no logic of their own.
- Station latitude and longitude: floating point, and no filter reads them.
- Time zones: every moment is in UTC, so `departure_time__date` is the UTC date.
- Sub-second precision: moments are whole seconds.
- `int()` accepts non-ASCII decimal digits, and `lower()` folds non-ASCII letters. Both are left out: the model accepts and lowers ASCII only.
- Text.ParseInt: does not model the interpreter's limit on the length of integer text. That limit is 4300 digits by default and can be changed at run time, and past it `int()` raises `ValueError`. The model reads any number of digits. The same limit applies to `str(n)`, which `Text.Show` writes for any `n`.
- Calendar.ParseDate: `%Y` and `%d` also match non-ASCII decimal digits, so Python reads `"\uff12\uff10\uff12\uff14-08-22"` (full-width digits) as a date. The model accepts ASCII digits only and returns `Err` for such text.
- The `__str__` methods of `Station`, `TrainType` and `Train`: each returns its name unchanged.
- `Order.__str__` returns `str(created_at)`, the moment rendered by `datetime`. Formatting a date and time with its zone offset is not modelled.
- `Route.clean` compares model instances. For saved stations that is a comparison of primary keys, which is what `CleanRoute` models. The case of unsaved stations is not modelled.
- The `retrieve` branch of `JourneyViewSet.get_queryset` only prefetches related rows, so it lists the same journeys.
- Who calls `Model.clean()`: DRF serializers do not, so `Serializers.GetTravelTime` is defined for negative durations too. Python's `timedelta` rounds days down, and so does the model.

## Findings

| source | as written | input that shows it | evidently intended | confidence | as-written member | corrected member |
|---|---|---|---|---|---|---|
| train_station/serializers.py:135-139 | `if days > 1` and `if hours > 1` choose the shape, so a single day and a single hour are left out of the text | a journey of 25 hours is shown as "0 minutes"; one of 90 minutes is shown as "30 minutes" | `>= 1`: a part is left out only when it is zero | not executed | Serializers.GetTravelTimeOfTwentyFiveHours | Serializers.CorrectedTravelTimeShowsWholeMinutes |
