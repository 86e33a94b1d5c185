/** The validation step that runs before `/optimize`: build each CSV row's
    full address, group rows by dedup key, place each group once and answer
    two lists, the placed groups and the others. */
module Validation {
  import opened Common
  import opened Text
  import opened Dedup
  import Geocoding

  /** One CSV row: client, street address and town. */
  datatype CsvRow = CsvRow(client: string, street: string, city: string)

  /** `_build_full_address`: the trimmed street, followed by ", " and the
      trimmed town unless the town is blank or already appears in the street,
      ignoring case. */
  function FullAddress(street: string, city: string): string
  {
    var d := Strip(street);
    var c := Strip(city);
    if c == [] || Contains(Lower(d), Lower(c)) then d else d + ", " + c
  }

  /** The town is appended exactly when it is not blank and the street does
      not mention it already; then the result is "street, town". */
  lemma FullAddressAppends(street: string, city: string)
    ensures var d := Strip(street);
            var c := Strip(city);
            FullAddress(street, city) == d <==> c == [] || Contains(Lower(d), Lower(c))
    ensures var d := Strip(street);
            var c := Strip(city);
            FullAddress(street, city) != d ==> FullAddress(street, city) == d + ", " + c
  {
    var d := Strip(street);
    var c := Strip(city);
    if !(c == [] || Contains(Lower(d), Lower(c))) {
      assert |FullAddress(street, city)| == |d| + 2 + |c|;
    }
  }

  /** A non-blank town always appears in the full address, ignoring case. */
  lemma FullAddressMentionsCity(street: string, city: string)
    requires Strip(city) != []
    ensures Contains(Lower(FullAddress(street, city)), Lower(Strip(city)))
  {
    var d := Strip(street);
    var c := Strip(city);
    if !Contains(Lower(d), Lower(c)) {
      LowerAppend(d + ", ", c);
      ContainsItself(Lower(c));
      ContainsRight(Lower(d + ", "), Lower(c), Lower(c));
    }
  }

  /** The rows keyed for grouping: full address, its dedup key, client. */
  function RowsOf(rows: seq<CsvRow>): (rs: seq<Row>)
    ensures |rs| == |rows|
  {
    seq(|rows|, i requires 0 <= i < |rows| =>
          var a := FullAddress(rows[i].street, rows[i].city);
          Row(NormalizeForDedup(a), a, rows[i].client))
  }

  /** A placed group: its address, first non-empty name, every name, the
      number of rows, and its position. */
  datatype GeocodedStop = GeocodedStop(address: string, clientName: string, allNames: seq<string>,
                                       packageCount: nat, position: Coord)

  /** A group that could not be placed. */
  datatype FailedStop = FailedStop(address: string, clientNames: seq<string>, packageCount: nat)

  datatype StartResponse = StartResponse(geocoded: seq<GeocodedStop>, failed: seq<FailedStop>,
                                         totalPackages: nat, uniqueAddresses: nat)

  datatype Validated = Validated(response: StartResponse, state: Geocoding.Geocoder)

  function GroupAddresses(gs: seq<Group>): (as_: seq<string>)
    ensures |as_| == |gs| && forall i :: 0 <= i < |gs| ==> as_[i] == gs[i].address
  {
    seq(|gs|, i requires 0 <= i < |gs| => gs[i].address)
  }

  /** Group `i` as a placed stop, when its position is known. */
  function GeocodedAt(gs: seq<Group>, cs: seq<Option<Coord>>): nat -> Option<GeocodedStop>
  {
    (i: nat) =>
      if i < |gs| && i < |cs| && cs[i].Some?
      then Some(GeocodedStop(gs[i].address, PrimaryName(gs[i].names), gs[i].names, |gs[i].names|, cs[i].value))
      else None
  }

  /** Group `i` as a stop that could not be placed. */
  function FailedAt(gs: seq<Group>, cs: seq<Option<Coord>>): nat -> Option<FailedStop>
  {
    (i: nat) =>
      if i < |gs| && i < |cs| && cs[i].None?
      then Some(FailedStop(gs[i].address, gs[i].names, |gs[i].names|))
      else None
  }

  /** The loop over the groups once each has its optional position. */
  function Respond(total: nat, gs: seq<Group>, cs: seq<Option<Coord>>): (r: StartResponse)
    requires |cs| == |gs|
    ensures r.totalPackages == total && r.uniqueAddresses == |gs|
  {
    StartResponse(Collect(GeocodedAt(gs, cs), |gs|), Collect(FailedAt(gs, cs), |gs|), total, |gs|)
  }

  /** The positions `geocode(addr)` answers for the groups' addresses, one
      group after the other (the sequential `Geocoding.Batch`), in group
      order: each is what the geocoder's cache holds for the group's key once
      the last group is done. */
  function GroupPositions(g: Geocoding.Geocoder, gs: seq<Group>, miss: string -> Geocoding.Outcome): (cs: seq<Option<Coord>>)
    ensures |cs| == |gs|
    ensures var b := Geocoding.Batch(g, GroupAddresses(gs), Geocoding.CacheKey, miss);
            && |b.results| == |gs|
            && forall i :: 0 <= i < |gs| ==>
              && cs[i] == b.results[i].coord
              && Geocoding.CacheKey(gs[i].address) in b.state.cache
              && cs[i] == b.state.cache[Geocoding.CacheKey(gs[i].address)]
  {
    var b := Geocoding.Batch(g, GroupAddresses(gs), Geocoding.CacheKey, miss);
    Geocoding.BatchAnswers(g, GroupAddresses(gs), Geocoding.CacheKey, miss);
    seq(|gs|, i requires 0 <= i < |gs| => b.results[i].coord)
  }

  /** `validation_start`: the rows grouped by dedup key, each group's address
      geocoded in turn, and the response split on those positions; the
      geocoder after it is the one the last lookup leaves. */
  function ValidationStart(rows: seq<CsvRow>, g: Geocoding.Geocoder, miss: string -> Geocoding.Outcome): (v: Validated)
    ensures v.response.totalPackages == |rows|
    ensures v.response.uniqueAddresses == |GroupRows(RowsOf(rows))|
    ensures var gs := GroupRows(RowsOf(rows));
            && v.response == Respond(|rows|, gs, GroupPositions(g, gs, miss))
            && v.state == Geocoding.Batch(g, GroupAddresses(gs), Geocoding.CacheKey, miss).state
  {
    var gs := GroupRows(RowsOf(rows));
    var b := Geocoding.Batch(g, GroupAddresses(gs), Geocoding.CacheKey, miss);
    Validated(Respond(|rows|, gs, GroupPositions(g, gs, miss)), b.state)
  }

  /** Validation keeps the geocoder's invariant. */
  lemma ValidationStartValid(rows: seq<CsvRow>, g: Geocoding.Geocoder, miss: string -> Geocoding.Outcome)
    requires Geocoding.Valid(g) && Geocoding.Windowed(miss)
    ensures Geocoding.Valid(ValidationStart(rows, g, miss).state)
  {
    var gs := GroupRows(RowsOf(rows));
    Geocoding.BatchValid(g, GroupAddresses(gs), Geocoding.CacheKey, miss);
  }

  // ---------------------------------------------------------------------------
  // The two lists
  // ---------------------------------------------------------------------------

  /** Each group lands in exactly one list; both lists keep group order;
      a placed group carries its first non-empty name, all its names and as
      many packages as names. */
  lemma RespondSplit(total: nat, gs: seq<Group>, cs: seq<Option<Coord>>)
    requires |cs| == |gs|
    ensures var r := Respond(total, gs, cs);
            var ok := Kept(GeocodedAt(gs, cs), |gs|);
            var fail := Kept(FailedAt(gs, cs), |gs|);
            && |r.geocoded| == |ok| && |r.failed| == |fail|
            && |r.geocoded| + |r.failed| == r.uniqueAddresses
            && (forall k :: 0 <= k < |ok| ==>
                  && ok[k] < |gs| && cs[ok[k]].Some?
                  && r.geocoded[k] == GeocodedStop(gs[ok[k]].address, PrimaryName(gs[ok[k]].names), gs[ok[k]].names,
                                                   |gs[ok[k]].names|, cs[ok[k]].value))
            && (forall k :: 0 <= k < |fail| ==>
                  && fail[k] < |gs| && cs[fail[k]].None?
                  && r.failed[k] == FailedStop(gs[fail[k]].address, gs[fail[k]].names, |gs[fail[k]].names|))
            && (forall k, l :: 0 <= k < l < |ok| ==> ok[k] < ok[l])
            && (forall k, l :: 0 <= k < l < |fail| ==> fail[k] < fail[l])
            && (forall i :: 0 <= i < |gs| ==> (i in ok <==> cs[i].Some?) && (i in fail <==> cs[i].None?))
  {
    var a := GeocodedAt(gs, cs);
    var b := FailedAt(gs, cs);
    CollectSpec(a, |gs|);
    CollectSpec(b, |gs|);
    KeptSplit(a, b, |gs|);
    forall i | 0 <= i < |gs|
      ensures (i in Kept(a, |gs|) <==> cs[i].Some?) && (i in Kept(b, |gs|) <==> cs[i].None?)
    {
      if cs[i].Some? {
        KeptComplete(a, |gs|, i);
      } else {
        KeptComplete(b, |gs|, i);
      }
    }
  }

  /** `[xs[k] for k in ks]`, 0 for an index out of range. */
  function Pick(xs: seq<int>, ks: seq<nat>): (ys: seq<int>)
    ensures |ys| == |ks|
  {
    seq(|ks|, k requires 0 <= k < |ks| => if ks[k] < |xs| then xs[ks[k]] else 0)
  }

  /** Two answers that split the indices split any sum over them. */
  lemma {:induction false} SumSplit<T, U>(xs: seq<int>, a: nat -> Option<T>, b: nat -> Option<U>, n: nat)
    requires n <= |xs|
    requires forall i :: 0 <= i < n ==> (a(i).Some? <==> b(i).None?)
    ensures Sum(Pick(xs, Kept(a, n))) + Sum(Pick(xs, Kept(b, n))) == Sum(xs[..n])
  {
    if n > 0 {
      SumSplit(xs, a, b, n - 1);
      var ka := Kept(a, n - 1);
      var kb := Kept(b, n - 1);
      assert xs[..n] == xs[..n - 1] + [xs[n - 1]];
      SumAppend(xs[..n - 1], [xs[n - 1]]);
      if a(n - 1).Some? {
        assert Kept(a, n) == ka + [n - 1] && Kept(b, n) == kb;
        assert Pick(xs, ka + [n - 1]) == Pick(xs, ka) + [xs[n - 1]];
        SumAppend(Pick(xs, ka), [xs[n - 1]]);
      } else {
        assert Kept(b, n) == kb + [n - 1] && Kept(a, n) == ka;
        assert Pick(xs, kb + [n - 1]) == Pick(xs, kb) + [xs[n - 1]];
        SumAppend(Pick(xs, kb), [xs[n - 1]]);
      }
    }
  }

  function Sizes(gs: seq<Group>): (ss: seq<int>)
    ensures |ss| == |gs| && forall i :: 0 <= i < |gs| ==> ss[i] == |gs[i].names|
  {
    seq(|gs|, i requires 0 <= i < |gs| => |gs[i].names|)
  }

  function GeocodedPackages(stops: seq<GeocodedStop>): (ps: seq<int>)
    ensures |ps| == |stops| && forall k :: 0 <= k < |stops| ==> ps[k] == stops[k].packageCount
  {
    seq(|stops|, k requires 0 <= k < |stops| => stops[k].packageCount)
  }

  function FailedPackages(stops: seq<FailedStop>): (ps: seq<int>)
    ensures |ps| == |stops| && forall k :: 0 <= k < |stops| ==> ps[k] == stops[k].packageCount
  {
    seq(|stops|, k requires 0 <= k < |stops| => stops[k].packageCount)
  }

  /** The packages of both lists add up to the names of all groups. */
  lemma RespondPackages(total: nat, gs: seq<Group>, cs: seq<Option<Coord>>)
    requires |cs| == |gs|
    ensures var r := Respond(total, gs, cs);
            Sum(GeocodedPackages(r.geocoded)) + Sum(FailedPackages(r.failed)) == Sum(Sizes(gs))
  {
    var a := GeocodedAt(gs, cs);
    var b := FailedAt(gs, cs);
    var r := Respond(total, gs, cs);
    CollectSpec(a, |gs|);
    CollectSpec(b, |gs|);
    assert GeocodedPackages(r.geocoded) == Pick(Sizes(gs), Kept(a, |gs|));
    assert FailedPackages(r.failed) == Pick(Sizes(gs), Kept(b, |gs|));
    SumSplit(Sizes(gs), a, b, |gs|);
    assert Sizes(gs)[..|gs|] == Sizes(gs);
  }

  /** The grouping keeps every row: the groups' name lists add up to the
      rows, and there is one group per first occurrence of a key. */
  lemma GroupSizes(rs: seq<Row>)
    ensures Sum(Sizes(GroupRows(rs))) == |rs|
    ensures |GroupRows(rs)| == |FirstOccurrences(rs)|
  {
    var gs := GroupRows(rs);
    GroupRowsIsGrouping(rs);
    GroupRowsConservesRows(rs);
    GroupRowsReference(rs);
    assert Sizes(gs) == Counts(gs);
  }

  /** The totals of `validation_start`: the packages of both lists add up to
      the number of rows, which is `total_packages`, and the two lists
      together hold one entry per distinct key, which is `unique_addresses`. */
  lemma ValidationTotals(rows: seq<CsvRow>, g: Geocoding.Geocoder, miss: string -> Geocoding.Outcome)
    ensures var r := ValidationStart(rows, g, miss).response;
            && r.totalPackages == |rows|
            && Sum(GeocodedPackages(r.geocoded)) + Sum(FailedPackages(r.failed)) == |rows|
            && r.uniqueAddresses == |r.geocoded| + |r.failed| == |FirstOccurrences(RowsOf(rows))|
  {
    var rs := RowsOf(rows);
    var gs := GroupRows(rs);
    var r := ValidationStart(rows, g, miss).response;
    var cs := GroupPositions(g, gs, miss);
    RespondSplit(|rows|, gs, cs);
    RespondPackages(|rows|, gs, cs);
    GroupSizes(rs);
  }

  /** Each group is made of its rows: the full address of the first row with
      its key, and every row's client, in row order. */
  lemma ValidationGroups(rows: seq<CsvRow>)
    ensures var rs := RowsOf(rows);
            var gs := GroupRows(rs);
            var fs := FirstOccurrences(rs);
            && |gs| == |fs|
            && forall i :: 0 <= i < |gs| ==>
                 && fs[i] < |rows|
                 && gs[i].address == FullAddress(rows[fs[i]].street, rows[fs[i]].city)
                 && gs[i].names == NamesWithKey(rs, rs[fs[i]].key)
  {
    GroupRowsReference(RowsOf(rows));
  }
}
