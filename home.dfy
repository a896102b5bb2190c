/**
 * The home component of the route planner with the map library abstracted
 * away: an ordered list of draggable markers (the waypoints, in click order),
 * the distance and walking time of the route through them, and the list of
 * saved route snapshots. The map is reduced to the set of markers drawn on
 * it, and the routing control to the log of route requests it was created
 * for and whether one is on the map; the routing service answers through
 * the separate RoutesFound event.
 */
module Home {

  /** A geographic coordinate, as the map library's LatLng. */
  datatype LatLng = LatLng(lat: real, lng: real)

  /** A draggable marker; its identity is the object, its position changes when it is dragged. */
  class Marker {
    var position: LatLng

    constructor (at: LatLng)
      ensures position == at
    {
      position := at;
    }
  }

  /** A saved snapshot of a route. */
  datatype SavedRoute = SavedRoute(waypoints: seq<LatLng>, distance: real, estimatedTime: real)

  /** The summary of one route alternative found by the routing service. */
  datatype RouteSummary = RouteSummary(totalDistance: real, totalTime: real)

  predicate Distinct(ms: seq<Marker>) {
    forall i, j :: 0 <= i < j < |ms| ==> ms[i] != ms[j]
  }

  /** The positions of the markers, in order. */
  function Positions(ms: seq<Marker>): (r: seq<LatLng>)
    reads ms
    ensures |r| == |ms|
    ensures forall j :: 0 <= j < |ms| ==> r[j] == ms[j].position
  {
    if ms == [] then [] else Positions(ms[..|ms| - 1]) + [ms[|ms| - 1].position]
  }

  /** The markers of `ms` other than `m`, in their order: the identity filter of removeMarker. */
  function Without(ms: seq<Marker>, m: Marker): seq<Marker> {
    if ms == [] then []
    else Without(ms[..|ms| - 1], m) + (if ms[|ms| - 1] == m then [] else [ms[|ms| - 1]])
  }

  /** The filter keeps exactly the markers other than `m`, and drops every occurrence of `m`. */
  lemma {:induction false} WithoutMembers(ms: seq<Marker>, m: Marker)
    ensures forall x :: x in Without(ms, m) <==> x in ms && x != m
    ensures |Without(ms, m)| == |ms| - multiset(ms)[m]
  {
    if ms != [] {
      var init, last := ms[..|ms| - 1], ms[|ms| - 1];
      assert ms == init + [last];
      WithoutMembers(init, m);
    }
  }

  /** Filtering distributes over concatenation. */
  lemma {:induction false} WithoutAppend(a: seq<Marker>, b: seq<Marker>, m: Marker)
    ensures Without(a + b, m) == Without(a, m) + Without(b, m)
  {
    if b != [] {
      var init, last := b[..|b| - 1], b[|b| - 1];
      assert (a + b)[..|a + b| - 1] == a + init;
      assert (a + b)[|a + b| - 1] == last;
      WithoutAppend(a, init, m);
      assert Without(a + b, m) == Without(a + init, m) + (if last == m then [] else [last]);
      assert Without(b, m) == Without(init, m) + (if last == m then [] else [last]);
    } else {
      assert a + b == a;
    }
  }

  /** Removing a marker that is not in the list leaves the list as it is. */
  lemma {:induction false} WithoutAbsent(ms: seq<Marker>, m: Marker)
    requires m !in ms
    ensures Without(ms, m) == ms
  {
    if ms != [] {
      WithoutAbsent(ms[..|ms| - 1], m);
    }
  }

  /** Removing the marker at position k of a list without repeats closes the gap, keeping the order. */
  lemma WithoutAt(ms: seq<Marker>, k: nat)
    requires Distinct(ms) && k < |ms|
    ensures Without(ms, ms[k]) == ms[..k] + ms[k + 1..]
  {
    var m, pre, post := ms[k], ms[..k], ms[k + 1..];
    assert ms == (pre + [m]) + post;
    assert m !in pre && m !in post by {
      DistinctSplit(ms, k);
    }
    assert Without(pre + [m], m) == pre by {
      WithoutAppend(pre, [m], m);
      WithoutSingle(m);
      WithoutAbsent(pre, m);
    }
    assert Without(post, m) == post by {
      WithoutAbsent(post, m);
    }
    WithoutAppend(pre + [m], post, m);
  }

  lemma WithoutSingle(m: Marker)
    ensures Without([m], m) == []
  {
    assert [m][..0] == [];
  }

  lemma DistinctSplit(ms: seq<Marker>, k: nat)
    requires Distinct(ms) && k < |ms|
    ensures ms[k] !in ms[..k] && ms[k] !in ms[k + 1..]
  {
    var pre, post := ms[..k], ms[k + 1..];
    forall i | 0 <= i < |pre| ensures pre[i] != ms[k] {
      assert pre[i] == ms[i];
    }
    forall i | 0 <= i < |post| ensures post[i] != ms[k] {
      assert post[i] == ms[k + 1 + i];
    }
  }

  /** Filtering keeps a list free of repeats. */
  lemma {:induction false} WithoutDistinct(ms: seq<Marker>, m: Marker)
    requires Distinct(ms)
    ensures Distinct(Without(ms, m))
  {
    if ms != [] {
      var init, last := ms[..|ms| - 1], ms[|ms| - 1];
      WithoutDistinct(init, m);
      WithoutMembers(init, m);
      assert last !in init by {
        DistinctSplit(ms, |ms| - 1);
      }
    }
  }

  /** On a list without repeats the filter removes exactly `m` where it stands, keeping the order of the rest. */
  lemma WithoutOfDistinct(ms: seq<Marker>, m: Marker)
    requires Distinct(ms)
    ensures Distinct(Without(ms, m))
    ensures forall x :: x in Without(ms, m) <==> x in ms && x != m
    ensures m !in ms ==> Without(ms, m) == ms
    ensures forall k :: 0 <= k < |ms| && ms[k] == m ==> Without(ms, m) == ms[..k] + ms[k + 1..]
  {
    WithoutDistinct(ms, m);
    WithoutMembers(ms, m);
    if m !in ms {
      WithoutAbsent(ms, m);
    }
    forall k | 0 <= k < |ms| && ms[k] == m
      ensures Without(ms, m) == ms[..k] + ms[k + 1..]
    {
      WithoutAt(ms, k);
    }
  }

  /**
   * The route requests issued while the waypoints `w` are added one by one:
   * one for every prefix of two or more waypoints.
   */
  function ReplayRequests(w: seq<LatLng>): (r: seq<seq<LatLng>>)
    ensures |r| == if |w| < 2 then 0 else |w| - 1
    ensures forall i :: 0 <= i < |r| ==> r[i] == w[..i + 2]
  {
    if |w| < 2 then []
    else
      var init := w[..|w| - 1];
      PrefixOfPrefix(w, |w| - 1);
      ReplayRequests(init) + [w]
  }

  lemma PrefixOfPrefix<T>(w: seq<T>, n: nat)
    requires n <= |w|
    ensures forall j :: 0 <= j <= n ==> w[..n][..j] == w[..j]
  {
  }

  class HomeComponent {
    var markers: seq<Marker>
    var distance: real
    var estimatedTime: real
    var savedRoutes: seq<SavedRoute>
    /** The markers drawn on the map. */
    var layers: set<Marker>
    /** The waypoints of every routing control created, oldest first: one per route request issued. */
    var requests: seq<seq<LatLng>>
    /** Whether a routing control (its route line and itinerary) is on the map. */
    var routeOnMap: bool

    /** The current waypoints: the positions of the markers, in order. */
    function Waypoints(): seq<LatLng>
      reads this, markers
    {
      Positions(markers)
    }

    /** Every marker is in the list once and drawn on the map, and no other marker is drawn. */
    ghost predicate MarkersValid()
      reads this
    {
      Distinct(markers) && layers == set m | m in markers
    }

    /** A route is on the map only for two or more waypoints, and it is the route through them. */
    ghost predicate Valid()
      reads this, markers
    {
      && MarkersValid()
      && (routeOnMap ==> |markers| >= 2 && requests != [] && requests[|requests| - 1] == Waypoints())
    }

    /** Distance and time are zero whenever there are fewer than two waypoints. */
    ghost predicate ZeroWithoutRoute()
      reads this
    {
      |markers| < 2 ==> distance == 0.0 && estimatedTime == 0.0
    }

    constructor ()
      ensures Valid() && ZeroWithoutRoute()
      ensures markers == [] && savedRoutes == [] && requests == []
      ensures distance == 0.0 && estimatedTime == 0.0
    {
      markers := [];
      distance := 0.0;
      estimatedTime := 0.0;
      savedRoutes := [];
      layers := {};
      requests := [];
      routeOnMap := false;
    }

    /**
     * Replaces the route for the current waypoints: the routing control on the
     * map is removed; for two or more waypoints a new route request is issued
     * (distance and time wait for RoutesFound), otherwise both become zero.
     */
    method UpdateRoute()
      requires MarkersValid()
      modifies this`requests, this`routeOnMap, this`distance, this`estimatedTime
      ensures Valid() && ZeroWithoutRoute()
      ensures routeOnMap == (|markers| > 1)
      ensures |markers| > 1 ==> requests == old(requests) + [Waypoints()]
      ensures |markers| > 1 ==> distance == old(distance) && estimatedTime == old(estimatedTime)
      ensures |markers| <= 1 ==> requests == old(requests)
      ensures |markers| <= 1 ==> distance == 0.0 && estimatedTime == 0.0
    {
      routeOnMap := false;
      if |markers| > 1 {
        requests := requests + [Waypoints()];
        routeOnMap := true;
      } else {
        distance := 0.0;
        estimatedTime := 0.0;
      }
    }

    /**
     * The routes-found event of the current routing control: the first route's
     * summary becomes the distance and time. An empty list of routes fails on
     * its first element before anything is set.
     */
    method RoutesFound(routes: seq<RouteSummary>) returns (ok: bool)
      requires Valid()
      modifies this`distance, this`estimatedTime
      ensures Valid()
      ensures ok == (|routes| > 0)
      ensures ok ==> distance == routes[0].totalDistance && estimatedTime == routes[0].totalTime
      ensures !ok ==> distance == old(distance) && estimatedTime == old(estimatedTime)
      ensures ok ==> (ZeroWithoutRoute() <==>
                |markers| >= 2 || (routes[0].totalDistance == 0.0 && routes[0].totalTime == 0.0))
    {
      if |routes| == 0 {
        return false;
      }
      distance := routes[0].totalDistance;
      estimatedTime := routes[0].totalTime;
      return true;
    }

    /** A click on the map: a new marker at `at` goes at the end of the list. */
    method AddMarker(at: LatLng) returns (added: Marker)
      requires Valid()
      modifies this`markers, this`layers, this`requests, this`routeOnMap, this`distance, this`estimatedTime
      ensures Valid()
      ensures fresh(added) && added.position == at
      ensures markers == old(markers) + [added]
      ensures Waypoints() == old(Waypoints()) + [at]
      ensures layers == old(layers) + {added}
      ensures distance == old(distance) && estimatedTime == old(estimatedTime)
      ensures |markers| > 1 ==> requests == old(requests) + [Waypoints()] && routeOnMap
      ensures |markers| <= 1 ==> requests == old(requests) && routeOnMap == old(routeOnMap)
      ensures old(ZeroWithoutRoute()) ==> ZeroWithoutRoute()
    {
      added := new Marker(at);
      markers := markers + [added];
      layers := layers + {added};
      assert Waypoints() == old(Waypoints()) + [at];
      if |markers| > 1 {
        UpdateRoute();
      }
    }

    /** A click on marker `m`: it leaves the map and the list, and the route is replaced. */
    method RemoveMarker(m: Marker)
      requires Valid()
      modifies this`markers, this`layers, this`requests, this`routeOnMap, this`distance, this`estimatedTime
      ensures Valid() && ZeroWithoutRoute()
      ensures markers == Without(old(markers), m)
      ensures m !in old(markers) ==> markers == old(markers)
      ensures forall k :: 0 <= k < |old(markers)| && old(markers)[k] == m ==>
                markers == old(markers)[..k] + old(markers)[k + 1..]
      ensures layers == old(layers) - {m}
      ensures routeOnMap == (|markers| > 1)
      ensures |markers| > 1 ==> requests == old(requests) + [Waypoints()]
      ensures |markers| > 1 ==> distance == old(distance) && estimatedTime == old(estimatedTime)
      ensures |markers| <= 1 ==> requests == old(requests) && distance == 0.0 && estimatedTime == 0.0
    {
      layers := layers - {m};
      var kept := Filter(markers, m);
      WithoutOfDistinct(markers, m);
      markers := kept;
      assert layers == set x | x in markers;
      UpdateRoute();
    }

    /** The filter loop of removeMarker: every marker that is not `m`, in order. */
    static method Filter(ms: seq<Marker>, m: Marker) returns (kept: seq<Marker>)
      ensures kept == Without(ms, m)
    {
      kept := [];
      for i := 0 to |ms|
        invariant kept == Without(ms[..i], m)
      {
        assert ms[..i + 1][..i] == ms[..i];
        if ms[i] != m {
          kept := kept + [ms[i]];
        }
      }
      assert ms[..|ms|] == ms;
    }

    /** Every marker leaves the map, the list is emptied and distance and time become zero. */
    method RemoveAllMarkers()
      requires Valid()
      modifies this`markers, this`layers, this`requests, this`routeOnMap, this`distance, this`estimatedTime
      ensures Valid() && ZeroWithoutRoute()
      ensures markers == [] && layers == {} && requests == old(requests)
      ensures !routeOnMap && distance == 0.0 && estimatedTime == 0.0
    {
      var i := 0;
      while i < |markers|
        invariant 0 <= i <= |markers|
        invariant markers == old(markers) && Distinct(markers) && requests == old(requests)
        invariant layers == set x | x in markers[i..]
      {
        assert markers[i..] == [markers[i]] + markers[i + 1..];
        assert markers[i] !in markers[i + 1..] by {
          DistinctSplit(markers, i);
        }
        layers := layers - {markers[i]};
        i := i + 1;
      }
      markers := [];
      UpdateRoute();
    }

    /** Marker `m` is dragged to `to`; its drag-end handler replaces the route. */
    method DragMarker(m: Marker, to: LatLng)
      requires Valid() && m in markers
      modifies m, this`requests, this`routeOnMap, this`distance, this`estimatedTime
      ensures Valid()
      ensures m.position == to
      ensures |Waypoints()| == |old(Waypoints())|
      ensures forall k :: 0 <= k < |markers| ==>
                Waypoints()[k] == if markers[k] == m then to else old(Waypoints())[k]
      ensures routeOnMap == (|markers| > 1)
      ensures |markers| > 1 ==> requests == old(requests) + [Waypoints()]
      ensures |markers| > 1 ==> distance == old(distance) && estimatedTime == old(estimatedTime)
      ensures |markers| <= 1 ==> requests == old(requests) && distance == 0.0 && estimatedTime == 0.0
    {
      m.position := to;
      UpdateRoute();
    }

    /** A snapshot of the current waypoints, distance and time is added at the end of the saved routes. */
    method SaveRoute()
      requires Valid()
      modifies this`savedRoutes
      ensures Valid()
      ensures savedRoutes == old(savedRoutes) + [SavedRoute(Waypoints(), distance, estimatedTime)]
    {
      savedRoutes := savedRoutes + [SavedRoute(Waypoints(), distance, estimatedTime)];
    }

    /**
     * All markers are removed, then one is added for every waypoint of saved
     * route `index`, in order. For an index with no saved route the removal has
     * happened when the lookup fails, and nothing is added.
     */
    method RestoreRoute(index: int) returns (ok: bool)
      requires Valid()
      modifies this`markers, this`layers, this`requests, this`routeOnMap, this`distance, this`estimatedTime
      ensures Valid() && ZeroWithoutRoute()
      ensures ok == (0 <= index < |savedRoutes|)
      ensures ok ==> Waypoints() == savedRoutes[index].waypoints
      ensures ok ==> requests == old(requests) + ReplayRequests(savedRoutes[index].waypoints)
      ensures ok ==> forall m :: m in markers ==> fresh(m)
      ensures !ok ==> markers == [] && requests == old(requests)
      ensures distance == 0.0 && estimatedTime == 0.0
    {
      RemoveAllMarkers();
      if !(0 <= index < |savedRoutes|) {
        return false;
      }
      AddMarkers(savedRoutes[index].waypoints);
      return true;
    }

    /** The replay of restoreRoute: one addMarker for every waypoint of `w`, in order, onto an empty map. */
    method AddMarkers(w: seq<LatLng>)
      requires Valid() && markers == [] && distance == 0.0 && estimatedTime == 0.0
      modifies this`markers, this`layers, this`requests, this`routeOnMap, this`distance, this`estimatedTime
      ensures Valid()
      ensures Waypoints() == w
      ensures requests == old(requests) + ReplayRequests(w)
      ensures distance == 0.0 && estimatedTime == 0.0
      ensures forall m :: m in markers ==> fresh(m)
    {
      for k := 0 to |w|
        invariant Valid()
        invariant Waypoints() == w[..k]
        invariant requests == old(requests) + ReplayRequests(w[..k])
        invariant distance == 0.0 && estimatedTime == 0.0
        invariant forall m :: m in markers ==> fresh(m)
      {
        var added := AddWaypoint(w, k);
        ReplayStep(w, k);
        assert requests == old(requests) + ReplayRequests(w[..k + 1]);
      }
      assert w[..|w|] == w;
    }

    /** One step of the replay: waypoint k is added after the first k. */
    method AddWaypoint(w: seq<LatLng>, k: nat) returns (added: Marker)
      requires k < |w| && Valid() && Waypoints() == w[..k]
      modifies this`markers, this`layers, this`requests, this`routeOnMap, this`distance, this`estimatedTime
      ensures Valid() && Waypoints() == w[..k + 1]
      ensures fresh(added) && markers == old(markers) + [added]
      ensures distance == old(distance) && estimatedTime == old(estimatedTime)
      ensures requests == old(requests) + if k >= 1 then [w[..k + 1]] else []
    {
      added := AddMarker(w[k]);
      assert w[..k + 1] == w[..k] + [w[k]];
    }
  }

  /** Adding waypoint k issues the request for the first k + 1 waypoints, once there are two. */
  lemma ReplayStep(w: seq<LatLng>, k: nat)
    requires k < |w|
    ensures ReplayRequests(w[..k + 1]) == ReplayRequests(w[..k]) + if k >= 1 then [w[..k + 1]] else []
  {
    var v := w[..k + 1];
    assert v[..k] == w[..k];
  }

  /** Saving and then restoring the last saved route gives back the same waypoints. */
  method SaveThenRestore(c: HomeComponent)
    requires c.Valid()
    modifies c
    ensures c.Valid()
    ensures c.savedRoutes == old(c.savedRoutes) + [SavedRoute(old(c.Waypoints()), old(c.distance), old(c.estimatedTime))]
    ensures c.Waypoints() == old(c.Waypoints())
    ensures c.distance == 0.0 && c.estimatedTime == 0.0
  {
    c.SaveRoute();
    var ok := c.RestoreRoute(|c.savedRoutes| - 1);
  }
}
