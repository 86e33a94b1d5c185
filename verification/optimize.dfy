/** The `/optimize` request: clean the address list, group duplicate rows
    (unless the caller grouped them already), place the origin and the stops,
    split the stops into placed and unplaced, ask the solver for the visiting
    order and lay out the response. Every refusal of the handler is a
    `Reason`; the geocoder's state is threaded through. */
module Optimize {
  import opened Common
  import opened Text
  import opened Dedup
  import opened Routing
  import opened Layout
  import Geocoding

  /** The request body. `coords` holds one `[lat, lon]` list per row; a
      missing entry is an empty list. */
  datatype Request = Request(
    addresses: seq<string>,
    clientNames: Option<seq<string>>,
    startAddress: Option<string>,
    coords: Option<seq<seq<int>>>,
    packageCounts: Option<seq<int>>,
    allClientNames: Option<seq<seq<string>>>,
    vehicles: nat)

  /** Why a request is refused. */
  datatype Reason =
    | EmptyAddresses
    | TooManyStops
    | OriginNotFound(origin: string)
    | NothingPlaced
    | SolverUnavailable
    | DetailsUnavailable
    | BadStopIndex

  /** The HTTP status of each refusal; a stop index outside the point list
      is an uncaught lookup error. */
  function Status(r: Reason): (code: nat)
    ensures code == 400 <==> r.EmptyAddresses? || r.TooManyStops? || r.OriginNotFound? || r.NothingPlaced?
    ensures code == 503 <==> r.SolverUnavailable? || r.DetailsUnavailable?
  {
    match r
    case EmptyAddresses => 400
    case TooManyStops => 400
    case OriginNotFound(_) => 400
    case NothingPlaced => 400
    case SolverUnavailable => 503
    case DetailsUnavailable => 503
    case BadStopIndex => 500
  }

  datatype Response =
    | OneRoute(route: RouteResponse)
    | SharedRoutes(routes: seq<RouteResponse>, totalRoutes: nat)
    | Rejected(reason: Reason)

  datatype Handled = Handled(response: Response, state: Geocoding.Geocoder)

  // ---------------------------------------------------------------------------
  // Intake
  // ---------------------------------------------------------------------------

  /** `[a.strip() for a in addresses if a.strip()]`. */
  function NonBlank(addresses: seq<string>): (r: seq<string>)
    ensures |r| <= |addresses|
    ensures forall i :: 0 <= i < |r| ==> r[i] != [] && Stripped(r[i])
  {
    CompactSpec(Strip, addresses);
    Compact(Strip, addresses)
  }

  /** The rows that are not blank, by index. */
  function FilledRows(addresses: seq<string>): seq<nat>
  {
    Kept(NonEmptyImage(Strip, addresses), |addresses|)
  }

  /** The kept addresses are the stripped rows that are not blank, in input
      order and each once: the k-th is the k-th such row. So there are as
      many as there are such rows, as a multiset they are the stripped rows
      less the blank ones, and nothing is left exactly when every row is
      blank. */
  lemma NonBlankSpec(addresses: seq<string>)
    ensures var r := NonBlank(addresses);
            var ks := FilledRows(addresses);
            && |r| == |ks|
            && (forall k :: 0 <= k < |ks| ==> ks[k] < |addresses| && r[k] == Strip(addresses[ks[k]]))
            && (forall k, l :: 0 <= k < l < |ks| ==> ks[k] < ks[l])
            && (forall j :: 0 <= j < |addresses| ==> (j in ks <==> Strip(addresses[j]) != []))
            && multiset(r) == multiset(Images(Strip, addresses))[[] := 0]
            && (r == [] <==> forall j :: 0 <= j < |addresses| ==> Strip(addresses[j]) == [])
  {
    CompactSpec(Strip, addresses);
    CompactMultiset(Strip, addresses);
    var r := NonBlank(addresses);
    var ks := FilledRows(addresses);
    if r != [] {
      assert Strip(addresses[ks[0]]) != [];
    }
  }

  /** The client names, one per kept address: the i-th given name, stripped,
      or "" past the end of the given list; extra names are dropped. */
  function PadNames(raw: seq<string>, n: nat): (names: seq<string>)
    ensures |names| == n
    ensures forall i :: 0 <= i < n && i < |raw| ==> names[i] == Strip(raw[i])
    ensures forall i :: |raw| <= i < n ==> names[i] == ""
  {
    seq(n, i requires 0 <= i < n => if i < |raw| then Strip(raw[i]) else "")
  }

  datatype Admission = Admitted(addresses: seq<string>, names: seq<string>) | Refused(reason: Reason)

  /** The first checks: the blank-free address list must be non-empty and
      at most `MaxStops` long; names are padded to it. */
  function Admit(req: Request): (a: Admission)
    ensures a.Refused? ==> a.reason.EmptyAddresses? || a.reason.TooManyStops?
    ensures a.Refused? && a.reason.EmptyAddresses? <==> NonBlank(req.addresses) == []
    ensures a.Refused? && a.reason.TooManyStops? <==> |NonBlank(req.addresses)| > MaxStops
    ensures a.Admitted? ==>
              a.addresses == NonBlank(req.addresses) && 1 <= |a.addresses| <= MaxStops && |a.names| == |a.addresses|
  {
    var addresses := NonBlank(req.addresses);
    if addresses == [] then Refused(EmptyAddresses)
    else if |addresses| > MaxStops then Refused(TooManyStops)
    else
      var raw := if req.clientNames.Some? then req.clientNames.value else [];
      Admitted(addresses, PadNames(raw, |addresses|))
  }

  /** `req.start_address or START_ADDRESS`. */
  function Origin(req: Request): (origin: string)
    ensures origin != ""
    ensures req.startAddress.Some? && req.startAddress.value != "" ==> origin == req.startAddress.value
    ensures req.startAddress.None? || req.startAddress.value == "" ==> origin == StartAddress
  {
    if req.startAddress.Some? && req.startAddress.value != "" then req.startAddress.value else StartAddress
  }

  // ---------------------------------------------------------------------------
  // Grouping
  // ---------------------------------------------------------------------------

  /** The caller grouped the rows already: one package count per address. */
  predicate PreGrouped(req: Request, addresses: seq<string>)
  {
    req.packageCounts.Some? && |req.packageCounts.value| == |addresses|
  }

  /** `[[cn] if cn else [] for cn in client_names]`. */
  function OwnNames(names: seq<string>): (all: seq<seq<string>>)
    ensures |all| == |names|
    ensures forall i :: 0 <= i < |names| ==> all[i] == if names[i] != "" then [names[i]] else []
  {
    seq(|names|, i requires 0 <= i < |names| => if names[i] != "" then [names[i]] else [])
  }

  /** The unique stops: the caller's grouping passed through, or the rows
      grouped by their dedup key. */
  function StopsOf(req: Request, addresses: seq<string>, names: seq<string>): (g: Grouped)
    requires |names| == |addresses|
    ensures |g.primaryNames| == |g.addresses| && |g.allNames| == |g.addresses| && |g.packageCounts| == |g.addresses|
  {
    if PreGrouped(req, addresses) then
      var all := if req.allClientNames.Some? && |req.allClientNames.value| == |addresses|
                 then req.allClientNames.value else OwnNames(names);
      Grouped(addresses, names, all, req.packageCounts.value)
    else GroupDuplicateAddresses(addresses, names)
  }

  /** With the caller's grouping the addresses, names and counts pass through
      untouched and are never regrouped; each stop's name list is the
      caller's, or its one name. */
  lemma PreGroupedBypass(req: Request, addresses: seq<string>, names: seq<string>)
    requires |names| == |addresses| && PreGrouped(req, addresses)
    ensures var g := StopsOf(req, addresses, names);
            && g.addresses == addresses && g.primaryNames == names
            && g.packageCounts == req.packageCounts.value
            && (req.allClientNames.Some? && |req.allClientNames.value| == |addresses| ==> g.allNames == req.allClientNames.value)
            && (!(req.allClientNames.Some? && |req.allClientNames.value| == |addresses|) ==> forall i :: 0 <= i < |names| ==>
                  g.allNames[i] == if names[i] != "" then [names[i]] else [])
  {
  }

  /** Without it, grouping conserves rows: the package counts add up to the
      number of addresses, and there are no more stops than addresses. */
  lemma GroupingConservesRows(req: Request, addresses: seq<string>, names: seq<string>)
    requires |names| == |addresses| && !PreGrouped(req, addresses)
    ensures var g := StopsOf(req, addresses, names);
            Sum(g.packageCounts) == |addresses| && |g.addresses| <= |addresses|
  {
  }

  // ---------------------------------------------------------------------------
  // Placing the stops
  // ---------------------------------------------------------------------------

  /** `(coord[0], coord[1]) if coord and len(coord) == 2`. */
  function PairOf(c: seq<int>): (p: Option<Coord>)
    ensures p.Some? <==> |c| == 2
  {
    if |c| == 2 then Some(Coord(c[0], c[1])) else None
  }

  /** The first row of the first `n` with key `k` and a usable coordinate
      pair. */
  ghost predicate FirstPairAt(addresses: seq<string>, coords: seq<seq<int>>, key: string -> string, k: string, i: nat, n: nat)
    requires |coords| == |addresses| && n <= |addresses|
  {
    && i < n && key(addresses[i]) == k && |coords[i]| == 2
    && forall j :: 0 <= j < i ==> !(key(addresses[j]) == k && |coords[j]| == 2)
  }

  /** The loop that builds `_dedup_map` from the first `n` rows: the first
      usable pair of each key wins. */
  function DedupMap(addresses: seq<string>, coords: seq<seq<int>>, key: string -> string, n: nat): (m: map<string, Coord>)
    requires |coords| == |addresses| && n <= |addresses|
  {
    if n == 0 then map[]
    else
      var m := DedupMap(addresses, coords, key, n - 1);
      var k := key(addresses[n - 1]);
      if k !in m && |coords[n - 1]| == 2 then m[k := Coord(coords[n - 1][0], coords[n - 1][1])] else m
  }

  /** A key is in the map exactly when some row with it has a usable pair,
      and it maps to the pair of the first such row. */
  lemma {:induction false} DedupMapSpec(addresses: seq<string>, coords: seq<seq<int>>, key: string -> string, n: nat)
    requires |coords| == |addresses| && n <= |addresses|
    ensures var m := DedupMap(addresses, coords, key, n);
            && (forall k :: k in m <==> exists i :: 0 <= i < n && key(addresses[i]) == k && |coords[i]| == 2)
            && (forall i :: 0 <= i < n && FirstPairAt(addresses, coords, key, key(addresses[i]), i, n) ==>
                  key(addresses[i]) in m && m[key(addresses[i])] == Coord(coords[i][0], coords[i][1]))
  {
    DedupMapKeys(addresses, coords, key, n);
    DedupMapFirst(addresses, coords, key, n);
  }

  lemma {:induction false} DedupMapKeys(addresses: seq<string>, coords: seq<seq<int>>, key: string -> string, n: nat)
    requires |coords| == |addresses| && n <= |addresses|
    ensures forall k :: k in DedupMap(addresses, coords, key, n) <==>
              exists i :: 0 <= i < n && key(addresses[i]) == k && |coords[i]| == 2
  {
    if n > 0 {
      DedupMapKeys(addresses, coords, key, n - 1);
      var m := DedupMap(addresses, coords, key, n - 1);
      if key(addresses[n - 1]) in m {
        var i :| 0 <= i < n - 1 && key(addresses[i]) == key(addresses[n - 1]) && |coords[i]| == 2;
      }
    }
  }

  lemma {:induction false} DedupMapFirst(addresses: seq<string>, coords: seq<seq<int>>, key: string -> string, n: nat)
    requires |coords| == |addresses| && n <= |addresses|
    ensures forall i :: 0 <= i < n && FirstPairAt(addresses, coords, key, key(addresses[i]), i, n) ==>
              && key(addresses[i]) in DedupMap(addresses, coords, key, n)
              && DedupMap(addresses, coords, key, n)[key(addresses[i])] == Coord(coords[i][0], coords[i][1])
  {
    if n > 0 {
      DedupMapFirst(addresses, coords, key, n - 1);
      DedupMapKeys(addresses, coords, key, n - 1);
      var m := DedupMap(addresses, coords, key, n - 1);
      var m' := DedupMap(addresses, coords, key, n);
      forall i | 0 <= i < n && FirstPairAt(addresses, coords, key, key(addresses[i]), i, n)
        ensures key(addresses[i]) in m' && m'[key(addresses[i])] == Coord(coords[i][0], coords[i][1])
      {
        if i < n - 1 {
          assert FirstPairAt(addresses, coords, key, key(addresses[i]), i, n - 1);
        } else {
          assert key(addresses[n - 1]) !in m;
        }
      }
    }
  }

  /** What the geocoding step produces: one optional position per unique
      stop, and the geocoder after it. */
  datatype Placement = Placement(coords: seq<Option<Coord>>, state: Geocoding.Geocoder)

  /** The three ways of placing the unique stops: the caller's pairs one per
      stop when it grouped them; the caller's pairs one per row, looked up by
      dedup key; otherwise the geocoder, one address after the other. */
  function PlaceStops(req: Request, addresses: seq<string>, unique: seq<string>, pre: bool,
                      g: Geocoding.Geocoder, miss: string -> Geocoding.Outcome): (p: Placement)
    ensures |p.coords| == |unique|
  {
    if pre && req.coords.Some? && req.coords.value != [] && |req.coords.value| == |unique| then
      var cs := req.coords.value;
      Placement(seq(|unique|, i requires 0 <= i < |unique| => PairOf(cs[i])), g)
    else if req.coords.Some? && req.coords.value != [] && |req.coords.value| == |addresses| then
      var m := DedupMap(addresses, req.coords.value, NormalizeForDedup, |addresses|);
      Placement(seq(|unique|, i requires 0 <= i < |unique| =>
                  if NormalizeForDedup(unique[i]) in m then Some(m[NormalizeForDedup(unique[i])]) else None), g)
    else
      var b := Geocoding.Batch(g, unique, Geocoding.CacheKey, miss);
      Geocoding.BatchAnswers(g, unique, Geocoding.CacheKey, miss);
      Placement(seq(|unique|, i requires 0 <= i < |unique| => b.results[i].coord), b.state)
  }

  /** Placing the stops keeps the geocoder's invariant. */
  lemma PlaceStopsValid(req: Request, addresses: seq<string>, unique: seq<string>, pre: bool,
                        g: Geocoding.Geocoder, miss: string -> Geocoding.Outcome)
    requires Geocoding.Valid(g) && Geocoding.Windowed(miss)
    ensures Geocoding.Valid(PlaceStops(req, addresses, unique, pre, g, miss).state)
  {
    Geocoding.BatchValid(g, unique, Geocoding.CacheKey, miss);
  }

  // ---------------------------------------------------------------------------
  // Placed and unplaced
  // ---------------------------------------------------------------------------

  function PlacedAt(cs: seq<Option<Coord>>): nat -> Option<Coord>
  {
    (i: nat) => if i < |cs| then cs[i] else None
  }

  function UnplacedAt(cs: seq<Option<Coord>>): nat -> Option<nat>
  {
    (i: nat) => if i < |cs| && cs[i].None? then Some(i) else None
  }

  /** `geocoded_ok`: the indices of the placed stops, in order. */
  function PlacedIndices(cs: seq<Option<Coord>>): seq<nat>
  {
    Kept(PlacedAt(cs), |cs|)
  }

  /** `geocoded_fail`: the indices of the unplaced stops, in order. */
  function UnplacedIndices(cs: seq<Option<Coord>>): seq<nat>
  {
    Kept(UnplacedAt(cs), |cs|)
  }

  /** The placed and the unplaced indices split 0..M-1 between them, each
      list in increasing order. */
  lemma Partition(cs: seq<Option<Coord>>)
    ensures var ok := PlacedIndices(cs);
            var fail := UnplacedIndices(cs);
            && |ok| + |fail| == |cs|
            && (forall k :: 0 <= k < |ok| ==> ok[k] < |cs| && cs[ok[k]].Some?)
            && (forall k :: 0 <= k < |fail| ==> fail[k] < |cs| && cs[fail[k]].None?)
            && (forall k, l :: 0 <= k < l < |ok| ==> ok[k] < ok[l])
            && (forall k, l :: 0 <= k < l < |fail| ==> fail[k] < fail[l])
            && (forall i :: 0 <= i < |cs| ==> (i in ok <==> cs[i].Some?) && (i in fail <==> cs[i].None?))
  {
    var a := PlacedAt(cs);
    var b := UnplacedAt(cs);
    CollectSpec(a, |cs|);
    CollectSpec(b, |cs|);
    KeptSplit(a, b, |cs|);
    forall i | 0 <= i < |cs|
      ensures (i in PlacedIndices(cs) <==> cs[i].Some?) && (i in UnplacedIndices(cs) <==> cs[i].None?)
    {
      if cs[i].Some? {
        KeptComplete(a, |cs|, i);
      } else {
        KeptComplete(b, |cs|, i);
      }
    }
  }

  /** The points of the route: the origin, then each placed stop with its
      address, names and packages. */
  function PointsOf(originAt: Coord, origin: string, g: Grouped, cs: seq<Option<Coord>>, ok: seq<nat>): (ps: seq<Point>)
    requires |g.primaryNames| == |g.addresses| && |g.allNames| == |g.addresses| && |g.packageCounts| == |g.addresses|
    requires |cs| == |g.addresses|
    requires forall k :: 0 <= k < |ok| ==> ok[k] < |cs| && cs[ok[k]].Some?
    ensures |ps| == |ok| + 1
    ensures ps[0] == Point(originAt, origin, "", [], 0)
  {
    [Point(originAt, origin, "", [], 0)]
      + seq(|ok|, k requires 0 <= k < |ok| =>
              Point(cs[ok[k]].value, g.addresses[ok[k]], g.primaryNames[ok[k]], g.allNames[ok[k]], g.packageCounts[ok[k]]))
  }

  /** The unplaced stops, in order. */
  function UnplacedOf(g: Grouped, fail: seq<nat>): (us: seq<Unplaced>)
    requires |g.primaryNames| == |g.addresses| && |g.allNames| == |g.addresses| && |g.packageCounts| == |g.addresses|
    requires forall k :: 0 <= k < |fail| ==> fail[k] < |g.addresses|
    ensures |us| == |fail|
  {
    seq(|fail|, k requires 0 <= k < |fail| =>
          Unplaced(g.addresses[fail[k]], g.primaryNames[fail[k]], g.allNames[fail[k]], g.packageCounts[fail[k]]))
  }

  // ---------------------------------------------------------------------------
  // The handler
  // ---------------------------------------------------------------------------

  /** Asking the solver for the visiting order and laying out its answer. */
  function Route(points: seq<Point>, failed: seq<Unplaced>, totalPackages: int, vehicles: nat,
                 solver: Payload -> Option<VroomReply>, engine: seq<Coord> -> Option<OsrmReply>): (r: Response)
    requires |points| > 0
    ensures r.Rejected? ==> r.reason.SolverUnavailable? || r.reason.DetailsUnavailable? || r.reason.BadStopIndex?
    ensures r.OneRoute? ==>
              r.route.summary.totalStops == |points| - 1 + |failed| && r.route.summary.totalPackages == totalPackages
    ensures r.SharedRoutes? ==> r.totalRoutes == |r.routes|
  {
    var positions := seq(|points|, i requires 0 <= i < |points| => points[i].position);
    match OptimizeRoute(positions, vehicles, solver)
    case None => Rejected(SolverUnavailable)
    case Some(Multi(plans)) =>
      if !AllValid(points, plans) then Rejected(BadStopIndex)
      else
        var routes := MultiRoutes(points, failed, plans, engine);
        SharedRoutes(routes, |routes|)
    case Some(Single(plan)) =>
      if !ValidOrder(points, plan.waypointOrder) then Rejected(BadStopIndex)
      else match DetailsFor(points, plan, engine)
        case None => Rejected(DetailsUnavailable)
        case Some(d) => OneRoute(SingleRoute(points, failed, plan, d, totalPackages))
  }

  /** `optimize`: from the request and the geocoder to the response and the
      geocoder after it. */
  function Optimize(req: Request, g: Geocoding.Geocoder, miss: string -> Geocoding.Outcome,
                    solver: Payload -> Option<VroomReply>, engine: seq<Coord> -> Option<OsrmReply>): (h: Handled)
    ensures Admit(req).Refused? ==> h == Handled(Rejected(Admit(req).reason), g)
    ensures Admit(req).Admitted? ==> h == Proceed(req, Admit(req).addresses, Admit(req).names, g, miss, solver, engine)
  {
    match Admit(req)
    case Refused(reason) => Handled(Rejected(reason), g)
    case Admitted(addresses, names) => Proceed(req, addresses, names, g, miss, solver, engine)
  }

  /** After admission: group, place the origin (refusing when it cannot be
      placed), then the stops. */
  function Proceed(req: Request, addresses: seq<string>, names: seq<string>, g: Geocoding.Geocoder,
                   miss: string -> Geocoding.Outcome, solver: Payload -> Option<VroomReply>,
                   engine: seq<Coord> -> Option<OsrmReply>): (h: Handled)
    requires |names| == |addresses|
  {
    var origin := Origin(req);
    var o := Geocoding.Geocode(g, origin, miss);
    if o.result.None? then Handled(Rejected(OriginNotFound(origin)), o.state)
    else
      var stops := StopsOf(req, addresses, names);
      var placed := PlaceStops(req, addresses, stops.addresses, PreGrouped(req, addresses), o.state, miss);
      Place(stops, o.result.value, origin, placed, req.vehicles, solver, engine)
  }

  /** With the origin and the stops placed: refuse when no stop could be
      placed, otherwise route the placed ones and list the others. */
  function Place(stops: Grouped, originAt: Coord, origin: string, placed: Placement, vehicles: nat,
                 solver: Payload -> Option<VroomReply>, engine: seq<Coord> -> Option<OsrmReply>): (h: Handled)
    requires |stops.primaryNames| == |stops.addresses| && |stops.allNames| == |stops.addresses|
    requires |stops.packageCounts| == |stops.addresses| && |placed.coords| == |stops.addresses|
    ensures h.state == placed.state
    ensures h.response == Rejected(NothingPlaced) <==> forall i :: 0 <= i < |placed.coords| ==> placed.coords[i].None?
    ensures h.response.OneRoute? ==> h.response.route.summary.totalStops == |stops.addresses|
    ensures h.response.OneRoute? ==> h.response.route.summary.totalPackages == Sum(stops.packageCounts)
  {
    var ok := PlacedIndices(placed.coords);
    var fail := UnplacedIndices(placed.coords);
    Partition(placed.coords);
    NothingPlacedIff(placed.coords);
    if ok == [] then Handled(Rejected(NothingPlaced), placed.state)
    else Handled(RoutePlaced(stops, originAt, origin, placed.coords, ok, fail, vehicles, solver, engine), placed.state)
  }

  /** No index is placed exactly when no stop has a position. */
  lemma NothingPlacedIff(cs: seq<Option<Coord>>)
    ensures PlacedIndices(cs) == [] <==> forall i :: 0 <= i < |cs| ==> cs[i].None?
  {
    Partition(cs);
    var ok := PlacedIndices(cs);
    assert |ok| > 0 ==> cs[ok[0]].Some?;
  }

  /** Route the placed stops after the origin and list the unplaced ones;
      the summary counts them all. */
  function RoutePlaced(stops: Grouped, originAt: Coord, origin: string, cs: seq<Option<Coord>>, ok: seq<nat>, fail: seq<nat>,
                       vehicles: nat, solver: Payload -> Option<VroomReply>, engine: seq<Coord> -> Option<OsrmReply>): (r: Response)
    requires |stops.primaryNames| == |stops.addresses| && |stops.allNames| == |stops.addresses|
    requires |stops.packageCounts| == |stops.addresses| && |cs| == |stops.addresses|
    requires forall k :: 0 <= k < |ok| ==> ok[k] < |cs| && cs[ok[k]].Some?
    requires forall k :: 0 <= k < |fail| ==> fail[k] < |cs|
    ensures r != Rejected(NothingPlaced)
    ensures r.OneRoute? ==> r.route.summary.totalStops == |ok| + |fail|
    ensures r.OneRoute? ==> r.route.summary.totalPackages == Sum(stops.packageCounts)
  {
    var points := PointsOf(originAt, origin, stops, cs, ok);
    var failed := UnplacedOf(stops, fail);
    Route(points, failed, Sum(stops.packageCounts), vehicles, solver, engine)
  }

  /** A one-vehicle answer counts every unique stop, placed or not, and the
      packages of all of them; without the caller's grouping that is one
      package per non-blank row. */
  lemma OptimizeTotals(req: Request, g: Geocoding.Geocoder, miss: string -> Geocoding.Outcome,
                       solver: Payload -> Option<VroomReply>, engine: seq<Coord> -> Option<OsrmReply>)
    requires Admit(req).Admitted?
    ensures var a := Admit(req);
            var stops := StopsOf(req, a.addresses, a.names);
            var h := Optimize(req, g, miss, solver, engine);
            h.response.OneRoute? ==>
              && h.response.route.summary.totalStops == |stops.addresses|
              && h.response.route.summary.totalPackages == Sum(stops.packageCounts)
              && (!PreGrouped(req, a.addresses) ==> h.response.route.summary.totalPackages == |NonBlank(req.addresses)|)
  {
    var a := Admit(req);
    if !PreGrouped(req, a.addresses) {
      GroupingConservesRows(req, a.addresses, a.names);
    }
  }

  /** The handler keeps the geocoder's invariant. */
  lemma OptimizeValid(req: Request, g: Geocoding.Geocoder, miss: string -> Geocoding.Outcome,
                      solver: Payload -> Option<VroomReply>, engine: seq<Coord> -> Option<OsrmReply>)
    requires Geocoding.Valid(g) && Geocoding.Windowed(miss)
    ensures Geocoding.Valid(Optimize(req, g, miss, solver, engine).state)
  {
    var a := Admit(req);
    if a.Admitted? {
      var origin := Origin(req);
      var o := Geocoding.Geocode(g, origin, miss);
      Geocoding.GeocodeValid(g, origin, miss);
      var stops := StopsOf(req, a.addresses, a.names);
      PlaceStopsValid(req, a.addresses, stops.addresses, PreGrouped(req, a.addresses), o.state, miss);
    }
  }

  /** When no stop can be placed the answer is a refusal, never an empty
      route. */
  lemma NothingPlacedRefused(req: Request, g: Geocoding.Geocoder, miss: string -> Geocoding.Outcome,
                             solver: Payload -> Option<VroomReply>, engine: seq<Coord> -> Option<OsrmReply>)
    requires Admit(req).Admitted?
    requires var a := Admit(req);
             var o := Geocoding.Geocode(g, Origin(req), miss);
             var stops := StopsOf(req, a.addresses, a.names);
             && o.result.Some?
             && forall i :: 0 <= i < |stops.addresses| ==>
                  PlaceStops(req, a.addresses, stops.addresses, PreGrouped(req, a.addresses), o.state, miss).coords[i].None?
    ensures Optimize(req, g, miss, solver, engine).response == Rejected(NothingPlaced)
  {
  }
}
