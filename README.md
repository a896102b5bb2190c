# Route planner home component, modelled in Dafny

The home component of the run planner lets a user click on a map to place
waypoint markers. A routing service computes the route through the markers in
click order and reports its distance and walking time. The user can save
snapshots of the current route and restore them later. It also formats a
distance as a walking time for a given pace.

The model has three parts:

- `home.dfy`, module `Home`: the component as the class `HomeComponent`. It
  keeps the ordered marker list (`markers`, objects of class `Marker` whose
  identity is the object and whose position changes when dragged), `distance`,
  `estimatedTime` and the append-only `savedRoutes`. The map library is
  reduced to two things: the set of markers drawn on the map (`layers`), and
  the routing control, seen as a log of the route requests issued
  (`requests`) plus a flag saying whether a route is on the map
  (`routeOnMap`). Map clicks, marker clicks and marker drags are direct
  calls: `AddMarker`, `RemoveMarker` and `DragMarker`. The routing service's
  answer is the separate event `RoutesFound`. `Valid()` says that every
  marker is listed once and drawn, and that a route is shown only for two or
  more waypoints and is the route through them. `ZeroWithoutRoute()` says
  that distance and time are zero when there are fewer than two waypoints.
- `duration.dfy`, module `Duration`: `metersToTime` over exact reals.
  `Math.floor` is `.Floor`. `Math.round` is `JsRound` (floor of x + 0.5).
  The `%` on numbers is `JsRem` (the remainder takes the sign of the
  dividend). `ParseClock` reads a printed duration back and is the partner
  that shows the printout determines the clock reading.
- `decimal.dfy`, module `Decimal`: how an integral number below 10^21 is
  printed inside a template string, and how such a numeral is read back. `wrappers.dfy` holds
  `Option`.

## Model

| member | source | states |
|---|---|---|
| `Home.Positions` | src/app/components/home/home.component.ts:103 | the waypoints of a marker list are its markers' positions, one per marker, in list order (`markers.map(m => m.getLatLng())`) |
| `Home.HomeComponent.Waypoints` | src/app/components/home/home.component.ts:133 | the current waypoints: `Positions` of the marker list, as sent to the router and saved in a snapshot; what changes them is stated by AddMarker, DragMarker, RemoveMarker and RestoreRoute |
| `Home.HomeComponent.MarkersValid` | src/app/components/home/home.component.ts:67-68 | every marker is listed once and drawn on the map, and only listed markers are drawn; preserved by every method that changes the list |
| `Home.HomeComponent.Valid` | src/app/components/home/home.component.ts:97-112 | MarkersValid, and a route is shown only for two or more markers and is the route through the current waypoints; required and preserved by every operation |
| `Home.HomeComponent.ZeroWithoutRoute` | src/app/components/home/home.component.ts:125-128 | distance and time are 0 whenever there are fewer than two waypoints; established by UpdateRoute and kept by the methods whose contracts name it, and by RoutesFound only as its contract says |
| `Home.Without` | src/app/components/home/home.component.ts:85 | the identity filter `markers.filter(m => m !== marker)`; its properties are WithoutMembers, WithoutAppend, WithoutAbsent, WithoutAt, WithoutDistinct and WithoutOfDistinct, and the loop Filter computes it |
| `Home.HomeComponent.constructor` | src/app/components/home/home.component.ts:30-34 | the component starts with no markers, no saved routes, no route requests, and distance and time 0 |
| `Home.HomeComponent.AddMarker` | src/app/components/home/home.component.ts:66-81 | exactly one new marker is added at the end, at the given coordinate; earlier markers and their positions are unchanged; it is drawn on the map; a route request for all the waypoints is issued only when there are now two or more; distance and time are never changed |
| `Home.HomeComponent.RemoveMarker` | src/app/components/home/home.component.ts:83-87 | the list becomes the identity filter of the old list; a marker not in the list leaves it unchanged; a listed marker is cut out where it stood, the rest keeping their order; it leaves the map; the route is replaced, so with fewer than two waypoints distance and time become 0 |
| `Home.HomeComponent.Filter` | src/app/components/home/home.component.ts:85 | the filter loop returns exactly the markers other than the given one, in order |
| `Home.WithoutMembers` | src/app/components/home/home.component.ts:85 | the filter keeps a marker exactly when it is in the list and is not the removed one, and drops as many entries as the removed marker occurs |
| `Home.WithoutAbsent` | src/app/components/home/home.component.ts:85 | filtering out a marker that is not in the list returns the list unchanged |
| `Home.WithoutAppend` | src/app/components/home/home.component.ts:85 | the filter works element by element: filtering a concatenation concatenates the filtered parts |
| `Home.WithoutAt` | src/app/components/home/home.component.ts:85 | on a list without repeats, filtering out the marker at position k gives the list with that one position removed |
| `Home.WithoutDistinct` | src/app/components/home/home.component.ts:85 | filtering keeps the marker list free of repeats |
| `Home.WithoutOfDistinct` | src/app/components/home/home.component.ts:83-86 | on a list without repeats, the filter removes exactly the given marker where it stands, or nothing when it is absent |
| `Home.HomeComponent.RemoveAllMarkers` | src/app/components/home/home.component.ts:89-95 | every marker leaves the map, the list is empty, no route is shown and no request is issued, and distance and time are 0 |
| `Home.HomeComponent.UpdateRoute` | src/app/components/home/home.component.ts:97-128 | the shown route is removed; with two or more waypoints exactly one request for the current waypoints is issued and distance and time are left to the callback; otherwise distance and time become 0 and no request is issued |
| `Home.HomeComponent.RoutesFound` | src/app/components/home/home.component.ts:114-117 | distance and time become the first route's total distance and total time; with no route the handler fails before setting anything; markers and requests are untouched |
| `Home.HomeComponent.DragMarker` | src/app/components/home/home.component.ts:70-72 | only the dragged marker's waypoint changes, to the drop position; the route is then replaced as by UpdateRoute |
| `Home.HomeComponent.SaveRoute` | src/app/components/home/home.component.ts:131-138 | exactly one snapshot is appended, holding the current waypoints in order and the current distance and time; nothing else changes |
| `Home.HomeComponent.RestoreRoute` | src/app/components/home/home.component.ts:140-144 | for a saved index the waypoints become that snapshot's waypoints in order, all markers are new, and savedRoutes is unchanged; distance and time are 0 until the next callback; for an index with no snapshot the markers have been cleared when the lookup fails and nothing is added |
| `Home.HomeComponent.AddMarkers` | src/app/components/home/home.component.ts:143 | replaying the waypoints one addMarker at a time gives exactly those waypoints and issues one request per prefix of two or more |
| `Home.HomeComponent.AddWaypoint` | src/app/components/home/home.component.ts:143 | one step of the replay: with the first k waypoints placed, adding waypoint k gives the first k + 1 as waypoints, one new marker at the end, and a request for them once there are two |
| `Home.ReplayRequests` | src/app/components/home/home.component.ts:78-80 | the replay of n waypoints issues n - 1 requests (none for fewer than two), the i-th for the first i + 2 waypoints |
| `Home.ReplayStep` | src/app/components/home/home.component.ts:143 | adding waypoint k during the replay issues the request for the first k + 1 waypoints once there are two |
| `Home.SaveThenRestore` | src/app/components/home/home.component.ts:131-144 | saving and then restoring the last snapshot gives back the same waypoints, and the snapshot holds the distance and time of the moment of saving |
| `Duration.JsRound` | src/app/components/home/home.component.ts:151 | Math.round gives the integer within half a unit, a half rounded up |
| `Duration.Trunc` | src/app/components/home/home.component.ts:150 | the integral part toward zero, used by the `%` on numbers |
| `Duration.JsRem` | src/app/components/home/home.component.ts:150 | the `%` on numbers: the remainder has the sign of the dividend (or is 0), is smaller than the divisor in magnitude, and differs from the dividend by a whole multiple of the divisor |
| `Duration.WalkingMinutes` | src/app/components/home/home.component.ts:147-148 | the walking time in minutes: never negative for non-negative meters and pace, and one kilometre takes exactly `pace` minutes |
| `Duration.RawClock` | src/app/components/home/home.component.ts:147-151 | hours, minutes and rounded seconds before the carry; its bounds and total are stated by RawClockBounds |
| `Duration.CarryIntoMinutes` | src/app/components/home/home.component.ts:153-156 | the carry as written: hours unchanged, the total number of seconds unchanged, and seconds of 0..60 brought into 0..59 |
| `Duration.Format` | src/app/components/home/home.component.ts:158 | the "[Hh ]Mm Ss" template; FormatRoundTrip proves it reads back and HoursShownIffNonZero proves when the hours part appears |
| `Duration.HoursPart` | src/app/components/home/home.component.ts:158 | the `hours ? hours + 'h ' : ''` part: printed exactly when hours is not 0 (HoursShownIffNonZero) and read back by ParseClockWithHours |
| `Duration.MinSecPart` | src/app/components/home/home.component.ts:158 | the minutes-and-seconds part, read back as the same two numbers by ParseMinSecOfFormat |
| `Duration.MetersToTime` | src/app/components/home/home.component.ts:146-158 | metersToTime with its default pace; MetersToTimeReadsBack, HoursShownIffAnHour, SixtyMinutesReachable and the Example lemmas state what it prints |
| `Duration.RawClockBounds` | src/app/components/home/home.component.ts:147-151 | before the carry, for a non-negative walking time: hours is the floor of minutes / 60, minutes in 0..59, seconds in 0..60, and together they make the walking time rounded to the second |
| `Duration.ClockOfMinutes` | src/app/components/home/home.component.ts:146-156 | after the carry: hours is still the floor of minutes / 60 (the carry never reaches the hours), minutes in 0..60, seconds in 0..59, total seconds equal to the rounded walking time |
| `Duration.MetersToTimeReadsBack` | src/app/components/home/home.component.ts:146-158 | for non-negative meters and pace the printed string reads back as exactly the clock reading of the walking time |
| `Duration.FormatRoundTrip` | src/app/components/home/home.component.ts:158 | the "[Hh ]Mm Ss" printout of non-negative numbers reads back as the same hours, minutes and seconds |
| `Duration.HoursShownIffNonZero` | src/app/components/home/home.component.ts:158 | the hours part is printed exactly when hours is not 0 |
| `Duration.HoursShownIffAnHour` | src/app/components/home/home.component.ts:146-158 | for non-negative meters and pace, an hours part appears exactly when the walk takes at least 60 minutes |
| `Duration.ExampleNoDistance` | src/app/components/home/home.component.ts:146-158 | 0 meters at the default pace prints "0m 0s" |
| `Duration.ExampleOneKilometre` | src/app/components/home/home.component.ts:146-158 | 1000 meters at 5 min/km prints "5m 0s" |
| `Duration.ExampleOneHour` | src/app/components/home/home.component.ts:146-158 | 5000 meters at 12 min/km prints "1h 0m 0s" |
| `Duration.SixtyMinutesReachable` | src/app/components/home/home.component.ts:153-156 | 11999 meters at the default pace reads 0 h 60 min 0 s and prints "60m 0s" |
| `Duration.ClockOfMinutesCarried` | src/app/components/home/home.component.ts:153-156 | with the carry continued into the hours, minutes and seconds are both in 0..59 and the total is still the rounded walking time |
| `Duration.CarriedIsCanonical` | src/app/components/home/home.component.ts:153-156 | the completed carry gives the one canonical hours/minutes/seconds reading of the rounded walking time |
| `Duration.MetersToTimeCarriedReadsBack` | src/app/components/home/home.component.ts:146-158 | the corrected printout reads back as the canonical reading of the rounded walking time |
| `Duration.CarriedExamples` | src/app/components/home/home.component.ts:153-156 | the corrected formatter prints "1h 0m 0s" for 11999 m at 5 min/km and for 5000 m at 12 min/km |
| `Decimal.NatToString` | src/app/components/home/home.component.ts:158 | a non-negative integral number prints as a non-empty string of digits without leading zeros |
| `Decimal.IntToString` | src/app/components/home/home.component.ts:158 | an integral number prints as a non-empty numeral that starts with '-' exactly when it is negative, and is all digits otherwise |
| `Decimal.DigitsValueOfNatToString` | src/app/components/home/home.component.ts:158 | reading a printed number back gives the number |
| `Decimal.NatToStringInjective` | src/app/components/home/home.component.ts:158 | different numbers print differently |

## Left out

- Map rendering and configuration (tile layers, layer control, the marker icon, centre and zoom) are left out. They are presentation settings with no logic.
- Registering the map click, marker click and drag-end handlers is left out. Each event is a direct call instead: a map click is `AddMarker`, a marker click is `RemoveMarker`, a drag-end is `DragMarker`. The library moving the marker during a drag is folded into `DragMarker`.
- The routing control is not built, and the request to the routing service is not sent. Each request issued appears only as one entry of `requests`. The control's removal from the map is modelled only as `routeOnMap` becoming false in `UpdateRoute`.
- Moving the itinerary panel into the page is left out. It only touches the user interface.
- Asynchrony is left out. `RoutesFound` is one event, applied in sequence. It does not check that the answer belongs to the latest request, so an old answer can overwrite a newer one. An answer that arrives after the route was removed can also leave distance and time non-zero with fewer than two markers.
- Home.HomeComponent.RoutesFound: does not preserve `ZeroWithoutRoute()`. Its contract says exactly when that holds afterwards: with two or more markers, or when the answer's distance and time are both 0. A late answer can therefore break it, as described above.
- Numbers are exact reals and integers, not IEEE-754 doubles. Rounding errors in `meters / 1000 * pace` and non-finite values (NaN, Infinity) are not modelled. `NatToString` and `IntToString` always print plain digits, while JavaScript prints integral values of magnitude 10^21 or more in exponent form (`1e+21`); such durations are not modelled.
- Duration.ClockOfMinutes: its bounds are stated only for a non-negative walking time. For negative meters or pace it computes what the code computes, but nothing is proved about the result, because distances and paces are never negative.
- Duration.MetersToTimeReadsBack: the read-back partner covers only non-negative readings. The printout of a negative number is not parsed.
- Home.HomeComponent.RestoreRoute: the TypeError raised for an index with no snapshot becomes `ok == false`. The index is an integer, and a fractional index (also undefined) is not modelled.
- Home.HomeComponent.RoutesFound: the TypeError raised for an empty route list becomes `ok == false` with nothing set.
- Named routes, deleting a saved route and loading or saving to browser storage are not part of this model. This version of the component has no route name and no storage, and the snapshot record is only waypoints, distance and time.
- Removal is by object identity, as in the code: every entry identical to the marker goes. This is not "the first match". Markers are never repeated (`Valid()`), so at most one entry goes.

## Findings

| source | as written | input that shows it | evidently intended | confidence | as-written member | corrected member |
|---|---|---|---|---|---|---|
| src/app/components/home/home.component.ts:153-156 | when the rounded seconds reach 60 they are carried into the minutes only, so the minutes can reach 60 while the hours stay as they were | `metersToTime(11999)`: 59.995 minutes, the seconds round to 60, and the printout is "60m 0s" | the carry goes on into the hours, giving "1h 0m 0s"; minutes and seconds always in 0..59 | high; not executed | `Duration.SixtyMinutesReachable` | `Duration.CarriedIsCanonical` |
