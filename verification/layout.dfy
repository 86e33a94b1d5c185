/** The stop list of an optimised route, as the response shows it: the
    routed points in the solver's order, the origin among them, then the
    addresses that could not be placed, at the town centre; and the per-route
    bookkeeping when the deliveries are shared between several vehicles. */
module Layout {
  import opened Common
  import opened Text
  import opened Routing

  /** Label prefixes: a pin for a delivery, a warning sign for an address
      that could not be placed, a house for the origin. */
  const Pin: string := "\U{1F4CD} "
  const Warning: string := "\U{26A0}\U{FE0F} "
  const OriginLabel: string := "\U{1F3E0} Origen"
  const Ellipsis: char := '\U{2026}'

  /** Addresses longer than this are cut in labels. */
  const ShortLength: nat := 30

  /** `addr[:30] + "…"` when the address is longer than 30 characters. */
  function ShortAddress(addr: string): (s: string)
    ensures |s| <= ShortLength + 1
    ensures |addr| <= ShortLength ==> s == addr
    ensures |addr| > ShortLength ==> |s| == ShortLength + 1 && s[..ShortLength] == addr[..ShortLength] && s[ShortLength] == Ellipsis
  {
    if |addr| > ShortLength then addr[..ShortLength] + [Ellipsis] else addr
  }

  /** `[n for n in names if n]`. */
  function NonEmptyNames(names: seq<string>): (r: seq<string>)
    ensures |r| <= |names|
    ensures forall i :: 0 <= i < |r| ==> r[i] != ""
  {
    CompactSpec(Same, names);
    Compact(Same, names)
  }

  /** The names kept are the non-empty ones, in order and each once: the
      k-th is the k-th non-empty name, and as a multiset they are the names
      less the empty ones. */
  lemma NonEmptyNamesSpec(names: seq<string>)
    ensures var r := NonEmptyNames(names);
            var ks := Kept(NonEmptyImage(Same, names), |names|);
            && |r| == |ks|
            && (forall k :: 0 <= k < |ks| ==> ks[k] < |names| && r[k] == names[ks[k]])
            && (forall k, l :: 0 <= k < l < |ks| ==> ks[k] < ks[l])
            && (forall j :: 0 <= j < |names| ==> (j in ks <==> names[j] != ""))
            && multiset(r) == multiset(names)[[] := 0]
  {
    CompactSpec(Same, names);
    CompactMultiset(Same, names);
    assert Images(Same, names) == names;
  }

  /** One entry of the parallel `all_*` lists: index 0 is the origin, the
      others the placed stops. */
  datatype Point = Point(position: Coord, address: string, primaryName: string, names: seq<string>, packages: int)

  /** An address that could not be placed, with its names and packages. */
  datatype Unplaced = Unplaced(address: string, primaryName: string, names: seq<string>, packages: int)

  datatype StopKind = Origin | Delivery

  /** One entry of the response's stop list. */
  datatype Stop = Stop(order: nat, address: string, title: string, clientName: string, clientNames: seq<string>,
                       kind: StopKind, position: Coord, distance: nat, failed: bool, packages: int)

  datatype Summary = Summary(totalStops: nat, totalPackages: int, totalDistance: nat, distanceText: string)

  /** One route of the response; the index and the count of routes are only
      set when the deliveries are shared between vehicles. */
  datatype RouteResponse = RouteResponse(summary: Summary, stops: seq<Stop>, steps: seq<Instruction>,
                                         routeIndex: Option<nat>, totalRoutes: Option<nat>)

  /** Every index of the visiting order names a point; otherwise the lookup
      `all_coords[i]` raises. */
  predicate ValidOrder(points: seq<Point>, order: seq<nat>)
  {
    forall i :: 0 <= i < |order| ==> order[i] < |points|
  }

  /** `[all_coords[i] for i in wp_order]`: the positions handed to the
      route-details engine. */
  function Positions(points: seq<Point>, order: seq<nat>): (ps: seq<Coord>)
    requires ValidOrder(points, order)
    ensures |ps| == |order|
  {
    seq(|order|, i requires 0 <= i < |order| => points[order[i]].position)
  }

  /** `stop_details_map.get(idx, {}).get("arrival_distance", 0)`: the map
      keeps the last detail for an index; an index without one arrives at 0. */
  function ArrivalAt(details: seq<StopDetail>, idx: nat): (d: nat)
    ensures (forall k :: 0 <= k < |details| ==> details[k].originalIndex != idx) ==> d == 0
    ensures d == 0 || exists k :: 0 <= k < |details| && details[k].originalIndex == idx && details[k].arrivalDistance == d
  {
    if details == [] then 0
    else if details[|details| - 1].originalIndex == idx then details[|details| - 1].arrivalDistance
    else
      var d := ArrivalAt(details[..|details| - 1], idx);
      assert forall k :: 0 <= k < |details| - 1 ==> details[..|details| - 1][k] == details[k];
      d
  }

  /** When no other detail has the same index, a stop arrives at its own
      running distance. */
  lemma ArrivalAtOwn(details: seq<StopDetail>, k: nat)
    requires k < |details|
    requires forall j :: 0 <= j < |details| && j != k ==> details[j].originalIndex != details[k].originalIndex
    ensures ArrivalAt(details, details[k].originalIndex) == details[k].arrivalDistance
  {
    var n := |details|;
    if k < n - 1 {
      var init := details[..n - 1];
      assert init[k] == details[k];
      ArrivalAtOwn(init, k);
    }
  }

  /** A delivery's label: the client's name, or else (with several vehicles)
      its position in the route or (with one) its address, cut to 30
      characters. */
  function StopLabel(p: Point, pos: nat, numbered: bool): (title: string)
    ensures StartsWith(title, Pin)
  {
    if p.primaryName != "" then Pin + p.primaryName
    else if numbered then Pin + "Parada " + NatToString(pos)
    else Pin + ShortAddress(p.address)
  }

  /** The stop at position `pos` of a route, for point `idx`. */
  function RoutedStop(p: Point, idx: nat, pos: nat, details: seq<StopDetail>, numbered: bool): (s: Stop)
    ensures s.order == pos && s.address == p.address && s.position == p.position && !s.failed
    ensures s.kind == Origin <==> idx == 0
  {
    if idx == 0 then Stop(pos, p.address, OriginLabel, p.primaryName, [], Origin, p.position, 0, false, 0)
    else Stop(pos, p.address, StopLabel(p, pos, numbered), p.primaryName, NonEmptyNames(p.names), Delivery,
              p.position, ArrivalAt(details, idx), false, p.packages)
  }

  /** The routed part of a stop list, in the solver's order. */
  function RoutedStops(points: seq<Point>, order: seq<nat>, details: seq<StopDetail>, numbered: bool): (stops: seq<Stop>)
    requires ValidOrder(points, order)
    ensures |stops| == |order|
  {
    seq(|order|, i requires 0 <= i < |order| => RoutedStop(points[order[i]], order[i], i, details, numbered))
  }

  /** A stop that could not be placed, at position `pos`. */
  function FailedStop(u: Unplaced, pos: nat): (s: Stop)
    ensures s.order == pos && s.address == u.address && s.failed && s.kind == Delivery
    ensures s.position == PosadasCenter && s.distance == 0 && s.packages == u.packages
    ensures StartsWith(s.title, Warning)
  {
    var title := Warning + (if u.primaryName != "" then u.primaryName else ShortAddress(u.address));
    Stop(pos, u.address, title, u.primaryName, NonEmptyNames(u.names), Delivery, PosadasCenter, 0, true, u.packages)
  }

  /** The addresses that could not be placed, numbered on from `first`. */
  function FailedStops(us: seq<Unplaced>, first: nat): (stops: seq<Stop>)
    ensures |stops| == |us|
    ensures forall i :: 0 <= i < |us| ==> stops[i] == FailedStop(us[i], first + i)
  {
    seq(|us|, i requires 0 <= i < |us| => FailedStop(us[i], first + i))
  }

  function PackagesOf(stops: seq<Stop>): (ps: seq<int>)
    ensures |ps| == |stops| && forall i :: 0 <= i < |stops| ==> ps[i] == stops[i].packages
  {
    seq(|stops|, i requires 0 <= i < |stops| => stops[i].packages)
  }

  function UnplacedPackages(us: seq<Unplaced>): (ps: seq<int>)
    ensures |ps| == |us| && forall i :: 0 <= i < |us| ==> ps[i] == us[i].packages
  {
    seq(|us|, i requires 0 <= i < |us| => us[i].packages)
  }

  // ---------------------------------------------------------------------------
  // One vehicle
  // ---------------------------------------------------------------------------

  /** The response with one vehicle: the routed stops, then every address
      that could not be placed; the summary counts all stops, placed or not. */
  function SingleRoute(points: seq<Point>, failed: seq<Unplaced>, plan: RoutePlan, details: RouteDetails, totalPackages: int): (r: RouteResponse)
    requires |points| > 0 && ValidOrder(points, plan.waypointOrder)
    ensures r.summary.totalStops == |points| - 1 + |failed|
    ensures r.summary.totalPackages == totalPackages
    ensures r.summary.distanceText == FormatDistance(details.totalDistance)
    ensures r.routeIndex.None? && r.totalRoutes.None?
  {
    var stops := RoutedStops(points, plan.waypointOrder, plan.stopDetails, false) + FailedStops(failed, |plan.waypointOrder|);
    RouteResponse(Summary(|points| - 1 + |failed|, totalPackages, details.totalDistance, FormatDistance(details.totalDistance)),
                  stops, details.steps, None, None)
  }

  /** The layout of the single-route stop list: each stop's `order` is its
      position; the first is the origin, with no packages, no distance and
      no names; the placed stops come first, at their points, and the
      addresses that could not be placed follow, at the town centre, with
      distance 0, in their own order. */
  lemma SingleLayout(points: seq<Point>, failed: seq<Unplaced>, plan: RoutePlan, details: RouteDetails, totalPackages: int)
    requires |points| > 0 && ValidOrder(points, plan.waypointOrder)
    requires plan.waypointOrder != [] && plan.waypointOrder[0] == 0
    ensures var r := SingleRoute(points, failed, plan, details, totalPackages);
            var n := |plan.waypointOrder|;
            && |r.stops| == n + |failed|
            && (forall i :: 0 <= i < |r.stops| ==> r.stops[i].order == i)
            && r.stops[0].kind == Origin && r.stops[0].title == OriginLabel
            && r.stops[0].packages == 0 && r.stops[0].distance == 0 && r.stops[0].clientNames == []
            && (forall i :: 0 <= i < n ==> !r.stops[i].failed && r.stops[i].position == points[plan.waypointOrder[i]].position)
            && (forall i :: n <= i < |r.stops| ==>
                  && r.stops[i].failed && r.stops[i].position == PosadasCenter && r.stops[i].distance == 0
                  && r.stops[i].address == failed[i - n].address && r.stops[i].packages == failed[i - n].packages)
  {
    var r := SingleRoute(points, failed, plan, details, totalPackages);
    var routed := RoutedStops(points, plan.waypointOrder, plan.stopDetails, false);
    var fs := FailedStops(failed, |plan.waypointOrder|);
    assert r.stops == routed + fs;
    assert forall i :: 0 <= i < |routed| ==> r.stops[i] == routed[i];
    assert forall i :: |routed| <= i < |r.stops| ==> r.stops[i] == fs[i - |routed|];
  }

  /** Labels with one vehicle: a delivery with a client name shows the
      name; without one, its address cut to 30 characters; an address that
      could not be placed gets the warning sign instead of the pin. */
  lemma SingleLabels(points: seq<Point>, failed: seq<Unplaced>, plan: RoutePlan, details: RouteDetails, totalPackages: int, i: nat)
    requires |points| > 0 && ValidOrder(points, plan.waypointOrder)
    requires i < |plan.waypointOrder| + |failed|
    ensures var r := SingleRoute(points, failed, plan, details, totalPackages);
            var n := |plan.waypointOrder|;
            && (i < n && plan.waypointOrder[i] != 0 ==>
                  var p := points[plan.waypointOrder[i]];
                  r.stops[i].title == Pin + (if p.primaryName != "" then p.primaryName else ShortAddress(p.address)))
            && (n <= i ==>
                  var u := failed[i - n];
                  r.stops[i].title == Warning + (if u.primaryName != "" then u.primaryName else ShortAddress(u.address)))
  {
    var r := SingleRoute(points, failed, plan, details, totalPackages);
    var routed := RoutedStops(points, plan.waypointOrder, plan.stopDetails, false);
    var fs := FailedStops(failed, |plan.waypointOrder|);
    assert r.stops == routed + fs;
    if i < |routed| {
      assert r.stops[i] == routed[i];
    } else {
      assert r.stops[i] == fs[i - |routed|];
    }
  }

  /** Labels with several vehicles: a delivery with a client name shows the
      name; without one, its position in the route. */
  lemma MultiLabels(points: seq<Point>, failed: seq<Unplaced>, plan: RoutePlan, details: RouteDetails,
                    routeIndex: nat, totalRoutes: nat, i: nat)
    requires ValidOrder(points, plan.waypointOrder)
    requires i < |plan.waypointOrder| && plan.waypointOrder[i] != 0
    ensures var r := MultiRoute(points, failed, plan, details, routeIndex, totalRoutes);
            var p := points[plan.waypointOrder[i]];
            r.stops[i].title == if p.primaryName != "" then Pin + p.primaryName else Pin + "Parada " + NatToString(i)
  {
    var routed := RoutedStops(points, plan.waypointOrder, plan.stopDetails, true);
    var r := MultiRoute(points, failed, plan, details, routeIndex, totalRoutes);
    assert r.stops[i] == routed[i];
  }

  // ---------------------------------------------------------------------------
  // Several vehicles
  // ---------------------------------------------------------------------------

  /** The packages of a route: those of every delivery it visits. */
  function RoutePackages(points: seq<Point>, order: seq<nat>): int
    requires ValidOrder(points, order)
  {
    if order == [] then 0
    else (if order[0] == 0 then 0 else points[order[0]].packages) + RoutePackages(points, order[1..])
  }

  /** The number of deliveries in a stop list. */
  function DeliveryCount(stops: seq<Stop>): nat
  {
    if stops == [] then 0 else (if stops[0].kind == Delivery then 1 else 0) + DeliveryCount(stops[1..])
  }

  lemma {:induction false} DeliveryCountAppend(a: seq<Stop>, b: seq<Stop>)
    ensures DeliveryCount(a + b) == DeliveryCount(a) + DeliveryCount(b)
  {
    if a == [] {
      assert a + b == b;
    } else {
      assert (a + b)[1..] == a[1..] + b;
      DeliveryCountAppend(a[1..], b);
    }
  }

  /** The package counts of the routed stops, position by position. */
  function Loads(points: seq<Point>, order: seq<nat>): (ls: seq<int>)
    requires ValidOrder(points, order)
    ensures |ls| == |order|
  {
    seq(|order|, i requires 0 <= i < |order| => if order[i] == 0 then 0 else points[order[i]].packages)
  }

  lemma {:induction false} RoutePackagesIsSum(points: seq<Point>, order: seq<nat>)
    requires ValidOrder(points, order)
    ensures RoutePackages(points, order) == Sum(Loads(points, order))
  {
    if order != [] {
      assert Loads(points, order)[1..] == Loads(points, order[1..]);
      RoutePackagesIsSum(points, order[1..]);
    }
  }

  /** The routed stops carry exactly the loads of their points, the origin
      none. */
  lemma RoutedPackages(points: seq<Point>, order: seq<nat>, details: seq<StopDetail>, numbered: bool)
    requires ValidOrder(points, order)
    ensures PackagesOf(RoutedStops(points, order, details, numbered)) == Loads(points, order)
  {
  }

  /** One route when the deliveries are shared: as with one vehicle, but a
      delivery without a client name is labelled by its position; and only
      route 0 gets the addresses that could not be placed. The summary counts
      that route's deliveries and packages. */
  function MultiRoute(points: seq<Point>, failed: seq<Unplaced>, plan: RoutePlan, details: RouteDetails,
                      routeIndex: nat, totalRoutes: nat): (r: RouteResponse)
    requires ValidOrder(points, plan.waypointOrder)
    ensures r.routeIndex == Some(routeIndex) && r.totalRoutes == Some(totalRoutes)
    ensures |r.stops| == |plan.waypointOrder| + (if routeIndex == 0 then |failed| else 0)
    ensures forall i :: 0 <= i < |r.stops| ==> r.stops[i].order == i
    ensures forall i :: 0 <= i < |r.stops| ==> (r.stops[i].failed <==> i >= |plan.waypointOrder|)
  {
    var routed := RoutedStops(points, plan.waypointOrder, plan.stopDetails, true);
    var attach := routeIndex == 0 && failed != [];
    var stops := routed + (if attach then FailedStops(failed, |routed|) else []);
    var count := DeliveryCount(routed) + (if attach then |failed| else 0);
    var packages := RoutePackages(points, plan.waypointOrder) + (if attach then Sum(UnplacedPackages(failed)) else 0);
    RouteResponse(Summary(count, packages, details.totalDistance, FormatDistance(details.totalDistance)),
                  stops, details.steps, Some(routeIndex), Some(totalRoutes))
  }

  /** A route's summary agrees with its own stop list: the stop count is the
      number of deliveries in it and the package count the sum of their
      packages, the addresses that could not be placed included on route 0. */
  lemma MultiRouteTotals(points: seq<Point>, failed: seq<Unplaced>, plan: RoutePlan, details: RouteDetails,
                         routeIndex: nat, totalRoutes: nat)
    requires ValidOrder(points, plan.waypointOrder)
    ensures var r := MultiRoute(points, failed, plan, details, routeIndex, totalRoutes);
            && r.summary.totalStops == DeliveryCount(r.stops)
            && r.summary.totalPackages == Sum(PackagesOf(r.stops))
  {
    var routed := RoutedStops(points, plan.waypointOrder, plan.stopDetails, true);
    var attach := routeIndex == 0 && failed != [];
    var tail := if attach then FailedStops(failed, |routed|) else [];
    var r := MultiRoute(points, failed, plan, details, routeIndex, totalRoutes);
    assert r.stops == routed + tail;
    DeliveryCountAppend(routed, tail);
    FailedDeliveries(failed, |routed|);
    assert PackagesOf(r.stops) == PackagesOf(routed) + PackagesOf(tail);
    SumAppend(PackagesOf(routed), PackagesOf(tail));
    RoutedPackages(points, plan.waypointOrder, plan.stopDetails, true);
    RoutePackagesIsSum(points, plan.waypointOrder);
    assert PackagesOf(FailedStops(failed, |routed|)) == UnplacedPackages(failed);
  }

  /** Every stop that could not be placed is a delivery. */
  lemma {:induction false} FailedDeliveries(us: seq<Unplaced>, first: nat)
    ensures DeliveryCount(FailedStops(us, first)) == |us|
  {
    if us != [] {
      var fs := FailedStops(us, first);
      assert fs[1..] == FailedStops(us[1..], first + 1);
      FailedDeliveries(us[1..], first + 1);
    }
  }

  /** The route-details answer for one vehicle's route. */
  function DetailsFor(points: seq<Point>, plan: RoutePlan, engine: seq<Coord> -> Option<OsrmReply>): Option<RouteDetails>
    requires ValidOrder(points, plan.waypointOrder)
  {
    GetRouteDetails(Positions(points, plan.waypointOrder), engine)
  }

  predicate AllValid(points: seq<Point>, plans: seq<RoutePlan>)
  {
    forall r :: 0 <= r < |plans| ==> ValidOrder(points, plans[r].waypointOrder)
  }

  /** Solver route `r` as the response shows it, or None when its details
      cannot be had. */
  function RouteFor(points: seq<Point>, failed: seq<Unplaced>, plans: seq<RoutePlan>,
                    engine: seq<Coord> -> Option<OsrmReply>, r: nat): (o: Option<RouteResponse>)
    requires AllValid(points, plans)
    ensures o.Some? <==> r < |plans| && DetailsFor(points, plans[r], engine).Some?
    ensures o.Some? ==> o.value.routeIndex == Some(r)
                        && o.value == MultiRoute(points, failed, plans[r], DetailsFor(points, plans[r], engine).value, r, |plans|)
  {
    if r >= |plans| then None
    else match DetailsFor(points, plans[r], engine)
      case None => None
      case Some(d) => Some(MultiRoute(points, failed, plans[r], d, r, |plans|))
  }

  /** The loop over the solver's routes: a route whose details cannot be had
      is skipped. */
  function MultiRoutes(points: seq<Point>, failed: seq<Unplaced>, plans: seq<RoutePlan>,
                       engine: seq<Coord> -> Option<OsrmReply>): (rs: seq<RouteResponse>)
    requires AllValid(points, plans)
  {
    Collect(r => RouteFor(points, failed, plans, engine, r), |plans|)
  }

  /** The routes answered are exactly the solver's routes whose details could
      be had, in the solver's order, each tagged with its solver index. */
  lemma MultiRoutesSpec(points: seq<Point>, failed: seq<Unplaced>, plans: seq<RoutePlan>,
                        engine: seq<Coord> -> Option<OsrmReply>)
    requires AllValid(points, plans)
    ensures var rs := MultiRoutes(points, failed, plans, engine);
            && |rs| <= |plans|
            && (forall k :: 0 <= k < |rs| ==>
                  && rs[k].routeIndex.Some? && rs[k].routeIndex.value < |plans|
                  && DetailsFor(points, plans[rs[k].routeIndex.value], engine).Some?)
            && (forall k, l :: 0 <= k < l < |rs| ==> rs[k].routeIndex.value < rs[l].routeIndex.value)
            && (forall r :: 0 <= r < |plans| && DetailsFor(points, plans[r], engine).Some? ==>
                  exists k :: 0 <= k < |rs| && rs[k].routeIndex == Some(r))
  {
    var answer := r => RouteFor(points, failed, plans, engine, r);
    CollectSpec(answer, |plans|);
    var ks := Kept(answer, |plans|);
    forall r | 0 <= r < |plans| && DetailsFor(points, plans[r], engine).Some?
      ensures exists k :: 0 <= k < |ks| && ks[k] == r
    {
      KeptComplete(answer, |plans|, r);
    }
  }

  /** The addresses that could not be placed appear on route 0 only. */
  lemma FailedOnlyOnFirst(points: seq<Point>, failed: seq<Unplaced>, plans: seq<RoutePlan>,
                          engine: seq<Coord> -> Option<OsrmReply>, k: nat, i: nat)
    requires AllValid(points, plans)
    requires k < |MultiRoutes(points, failed, plans, engine)|
    requires i < |MultiRoutes(points, failed, plans, engine)[k].stops|
    requires MultiRoutes(points, failed, plans, engine)[k].stops[i].failed
    ensures MultiRoutes(points, failed, plans, engine)[k].routeIndex == Some(0)
  {
    var answer := r => RouteFor(points, failed, plans, engine, r);
    CollectSpec(answer, |plans|);
  }

  /** When the details of route 0 cannot be had, the addresses that could not
      be placed appear on no route of the response. */
  lemma FailedLostWithFirst(points: seq<Point>, failed: seq<Unplaced>, plans: seq<RoutePlan>,
                            engine: seq<Coord> -> Option<OsrmReply>)
    requires AllValid(points, plans) && plans != []
    requires DetailsFor(points, plans[0], engine).None?
    ensures var rs := MultiRoutes(points, failed, plans, engine);
            forall k, i :: 0 <= k < |rs| && 0 <= i < |rs[k].stops| ==> !rs[k].stops[i].failed
  {
    var rs := MultiRoutes(points, failed, plans, engine);
    forall k, i | 0 <= k < |rs| && 0 <= i < |rs[k].stops|
      ensures !rs[k].stops[i].failed
    {
      if rs[k].stops[i].failed {
        FailedOnlyOnFirst(points, failed, plans, engine, k, i);
        MultiRoutesSpec(points, failed, plans, engine);
        assert false;
      }
    }
  }
}
