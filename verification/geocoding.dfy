/** The geocoder: an in-memory cache and a table of manual overrides in
    front of a five-strategy cascade of searches against an address search
    service. The service is a parameter (`Provider`): the raw answer it gives
    to one query, before the town-window check. */
module Geocoding {
  import opened Common
  import opened Text
  import opened Cleaning

  // ---------------------------------------------------------------------------
  // Queries and the town window
  // ---------------------------------------------------------------------------

  /** One request to the search service: a free-form text (optionally bounded
      to the town's view box) or a structured street query, whose city,
      county and country are always Posadas, Córdoba, España. */
  datatype Query = FreeForm(text: string, bounded: bool) | Structured(street: string)

  /** The search service: first hit of a query, or None when the answer is
      empty or the call fails. */
  type Provider = Query -> Option<Coord>

  /** The acceptance window: at most 0.15 degrees from the town centre in
      latitude and in longitude. */
  predicate InWindow(c: Coord)
  {
    Abs(c.lat - PosadasCenter.lat) <= WindowTolerance && Abs(c.lon - PosadasCenter.lon) <= WindowTolerance
  }

  /** `_nominatim_query` / `_structured_query`: the provider's hit, dropped
      when it lies outside the window. */
  function Ask(provider: Provider, q: Query): (r: Option<Coord>)
    ensures r.Some? <==> provider(q).Some? && InWindow(provider(q).value)
    ensures r.Some? ==> r.value == provider(q).value
  {
    match provider(q)
    case None => None
    case Some(c) =>
      if Abs(c.lat - PosadasCenter.lat) > WindowTolerance || Abs(c.lon - PosadasCenter.lon) > WindowTolerance
      then None
      else Some(c)
  }

  // ---------------------------------------------------------------------------
  // The cascade
  // ---------------------------------------------------------------------------

  /** Result of the cascade: the coordinate found, and the queries sent, in
      order. */
  datatype Outcome = Outcome(result: Option<Coord>, asked: seq<Query>)

  /** Strategy 5's street: the last two words when there are more than two,
      otherwise the last one. */
  function ShortStreet(words: seq<string>): (s: string)
    requires |words| >= 2
  {
    if |words| > 2 then JoinWords(words[|words| - 2..]) else words[|words| - 1]
  }

  function ShortQuery(words: seq<string>): (q: Query)
    requires |words| >= 2
    ensures q.FreeForm? && !q.bounded
    ensures q.text == "Calle " + ShortStreet(words) + TownAndProvince
  {
    FreeForm("Calle " + ShortStreet(words) + TownAndProvince, false)
  }

  /** What the cascade needs of the cleaned address: the text itself, the
      structured street of strategy 2, the simplified text of strategies 3
      and 4, and the words of the bare street for strategy 5. */
  datatype Plan = Plan(cleaned: string, streetWithNumber: string, simplified: string, words: seq<string>)

  function PlanOf(cleaned: string): (p: Plan)
    ensures p.cleaned == cleaned
    ensures p.streetWithNumber == StreetWithNumber(cleaned)
    ensures p.simplified == SimplifyForSearch(cleaned)
    ensures p.words == Words(ExtractStreetOnly(cleaned))
  {
    Plan(cleaned, StreetWithNumber(cleaned), SimplifyForSearch(cleaned), Words(ExtractStreetOnly(cleaned)))
  }

  /** Reference definition: the queries the five strategies would send, in
      order, if every one of them failed. Strategy 3 is there only when the
      simplified text differs from the cleaned one, strategy 5 only when the
      street has at least two words. */
  function Strategies(p: Plan): (qs: seq<Query>)
    ensures 3 <= |qs| <= 5
    ensures qs[0] == FreeForm(p.cleaned, false)
    ensures qs[1] == Structured(p.streetWithNumber)
  {
    [FreeForm(p.cleaned, false), Structured(p.streetWithNumber)]
    + (if p.simplified != p.cleaned then [FreeForm(p.simplified, false)] else [])
    + [FreeForm(p.simplified, true)]
    + (if |p.words| >= 2 then [ShortQuery(p.words)] else [])
  }

  /** Reference definition: ask the queries in order and stop at the first
      answer inside the window. */
  function FirstAnswer(provider: Provider, qs: seq<Query>): (o: Outcome)
    ensures |o.asked| <= |qs|
  {
    if qs == [] then Outcome(None, [])
    else
      var r := Ask(provider, qs[0]);
      if r.Some? then Outcome(r, [qs[0]])
      else
        var o := FirstAnswer(provider, qs[1..]);
        Outcome(o.result, [qs[0]] + o.asked)
  }

  /** `FirstAnswer` asks a prefix of the queries, every one but the last
      without an answer in the window; it answers with the last one's answer,
      or with None after asking them all. */
  lemma {:induction false} FirstAnswerSpec(provider: Provider, qs: seq<Query>)
    ensures var o := FirstAnswer(provider, qs);
            && o.asked == qs[..|o.asked|]
            && (forall j :: 0 <= j < |o.asked| - 1 ==> Ask(provider, o.asked[j]).None?)
            && (o.result.Some? ==> o.asked != [] && o.result == Ask(provider, o.asked[|o.asked| - 1]))
            && (o.result.None? ==> o.asked == qs && forall j :: 0 <= j < |qs| ==> Ask(provider, qs[j]).None?)
  {
    if qs != [] && Ask(provider, qs[0]).None? {
      FirstAnswerSpec(provider, qs[1..]);
      var o := FirstAnswer(provider, qs[1..]);
      assert qs == [qs[0]] + qs[1..];
      assert FirstAnswer(provider, qs).asked == [qs[0]] + o.asked;
      forall j | 0 <= j < |qs| && o.result.None?
        ensures Ask(provider, qs[j]).None?
      {
        if j > 0 {
          assert qs[j] == qs[1..][j - 1];
        }
      }
    }
  }

  /** Strategies 1 to 5 of `geocode`, in the order and under the guards of
      the source. Whatever it returns lies in the window. */
  function Cascade(provider: Provider, p: Plan): (o: Outcome)
    ensures o.result.Some? ==> InWindow(o.result.value)
    ensures 1 <= |o.asked| <= 5 && o.asked[0] == FreeForm(p.cleaned, false)
  {
    var q1 := FreeForm(p.cleaned, false);
    var r1 := Ask(provider, q1);
    if r1.Some? then Outcome(r1, [q1])
    else
      var q2 := Structured(p.streetWithNumber);
      var r2 := Ask(provider, q2);
      if r2.Some? then Outcome(r2, [q1, q2])
      else
        var q3 := FreeForm(p.simplified, false);
        var r3 := if p.simplified != p.cleaned then Ask(provider, q3) else None;
        if p.simplified != p.cleaned && r3.Some? then Outcome(r3, [q1, q2, q3])
        else
          var tried := [q1, q2] + (if p.simplified != p.cleaned then [q3] else []);
          var q4 := FreeForm(p.simplified, true);
          var r4 := Ask(provider, q4);
          if r4.Some? then Outcome(r4, tried + [q4])
          else if |p.words| >= 2 then
            var q5 := ShortQuery(p.words);
            Outcome(Ask(provider, q5), tried + [q4, q5])
          else Outcome(None, tried + [q4])
  }

  lemma FirstAnswerHit(provider: Provider, q: Query, qs: seq<Query>)
    requires Ask(provider, q).Some?
    ensures FirstAnswer(provider, [q] + qs) == Outcome(Ask(provider, q), [q])
  {
  }

  /** Queries without an answer in front of a list are asked and change
      nothing else. */
  lemma {:induction false} FirstAnswerAfterFailures(provider: Provider, pre: seq<Query>, qs: seq<Query>)
    requires forall j :: 0 <= j < |pre| ==> Ask(provider, pre[j]).None?
    ensures FirstAnswer(provider, pre + qs)
         == Outcome(FirstAnswer(provider, qs).result, pre + FirstAnswer(provider, qs).asked)
  {
    if pre == [] {
      assert pre + qs == qs;
      assert pre + FirstAnswer(provider, qs).asked == FirstAnswer(provider, qs).asked;
    } else {
      FirstAnswerAfterFailures(provider, pre[1..], qs);
      assert (pre + qs)[1..] == pre[1..] + qs;
      assert [pre[0]] + (pre[1..] + FirstAnswer(provider, qs).asked) == pre + FirstAnswer(provider, qs).asked;
    }
  }

  /** The cascade is "the first of the strategies' queries that the service
      answers inside the window": it asks exactly the queries up to that one. */
  lemma CascadeIsFirstAnswer(provider: Provider, p: Plan)
    ensures Cascade(provider, p) == FirstAnswer(provider, Strategies(p))
  {
    var q1 := FreeForm(p.cleaned, false);
    var q2 := Structured(p.streetWithNumber);
    var q3 := FreeForm(p.simplified, false);
    if Ask(provider, q1).Some? {
      CascadeHitAt(provider, p, 0);
    } else if Ask(provider, q2).Some? {
      CascadeHitAt(provider, p, 1);
    } else if p.simplified != p.cleaned && Ask(provider, q3).Some? {
      CascadeHitAt(provider, p, 2);
    } else {
      CascadeLate(provider, p);
    }
  }

  /** One of the first three strategies answers. */
  lemma CascadeHitAt(provider: Provider, p: Plan, n: nat)
    requires n < 3 && (n == 2 ==> p.simplified != p.cleaned)
    requires forall j :: 0 <= j < n ==> Ask(provider, Strategies(p)[j]).None?
    requires Ask(provider, Strategies(p)[n]).Some?
    ensures Cascade(provider, p) == FirstAnswer(provider, Strategies(p))
  {
    var qs := Strategies(p);
    assert qs == qs[..n] + ([qs[n]] + qs[n + 1..]);
    FirstAnswerAfterFailures(provider, qs[..n], [qs[n]] + qs[n + 1..]);
    FirstAnswerHit(provider, qs[n], qs[n + 1..]);
    assert qs[..n] + [qs[n]] == qs[..n + 1];
  }

  /** The first three strategies give nothing: strategies 4 and 5 decide. */
  lemma CascadeLate(provider: Provider, p: Plan)
    requires Ask(provider, FreeForm(p.cleaned, false)).None?
    requires Ask(provider, Structured(p.streetWithNumber)).None?
    requires p.simplified != p.cleaned ==> Ask(provider, FreeForm(p.simplified, false)).None?
    ensures Cascade(provider, p) == FirstAnswer(provider, Strategies(p))
  {
    var q1 := FreeForm(p.cleaned, false);
    var q2 := Structured(p.streetWithNumber);
    var q3 := FreeForm(p.simplified, false);
    var q4 := FreeForm(p.simplified, true);
    var tail := if |p.words| >= 2 then [ShortQuery(p.words)] else [];
    var tried := [q1, q2] + (if p.simplified != p.cleaned then [q3] else []);
    assert Strategies(p) == tried + ([q4] + tail) by {
      ConcatAssoc(tried, [q4], tail);
    }
    FirstAnswerAfterFailures(provider, tried, [q4] + tail);
    CascadeTail(provider, q4, tail);
  }

  /** Strategies 4 and 5 against the reference. */
  lemma CascadeTail(provider: Provider, q4: Query, tail: seq<Query>)
    requires |tail| <= 1
    ensures Ask(provider, q4).Some? ==> FirstAnswer(provider, [q4] + tail) == Outcome(Ask(provider, q4), [q4])
    ensures Ask(provider, q4).None? && tail == [] ==> FirstAnswer(provider, [q4] + tail) == Outcome(None, [q4])
    ensures Ask(provider, q4).None? && tail != [] ==>
              FirstAnswer(provider, [q4] + tail) == Outcome(Ask(provider, tail[0]), [q4, tail[0]])
  {
    if Ask(provider, q4).None? {
      assert ([q4] + tail)[1..] == tail;
      if tail != [] {
        assert tail[1..] == [];
      }
    }
  }

  // ---------------------------------------------------------------------------
  // Geocoder state
  // ---------------------------------------------------------------------------

  /** What a lookup that misses both maps does: clean the address, then run
      the cascade on it. Whatever it answers lies in the window. */
  function Miss(provider: Provider, rewrite: string -> string, address: string): (o: Outcome)
    ensures o.result.Some? ==> InWindow(o.result.value)
    ensures 1 <= |o.asked| <= 5
  {
    Cascade(provider, PlanOf(CleanAddress(address, rewrite)))
  }

  /** The miss path against the reference: the first strategy query the
      service answers inside the window, asked of the cleaned address. */
  lemma MissIsFirstAnswer(provider: Provider, rewrite: string -> string, address: string)
    ensures Miss(provider, rewrite, address) == FirstAnswer(provider, Strategies(PlanOf(CleanAddress(address, rewrite))))
  {
    CascadeIsFirstAnswer(provider, PlanOf(CleanAddress(address, rewrite)));
  }

  /** Every coordinate a miss path returns lies in the window. */
  ghost predicate Windowed(miss: string -> Outcome)
  {
    forall a :: miss(a).result.Some? ==> InWindow(miss(a).result.value)
  }

  /** The miss path of `geocode` for a given service and cleaning. */
  function Service(provider: Provider, rewrite: string -> string): (miss: string -> Outcome)
    ensures Windowed(miss)
  {
    a => Miss(provider, rewrite, a)
  }

  /** A manual override: the coordinate and the address as it was entered. */
  datatype Override = Override(coord: Coord, original: string)

  /** The module-level state: the cache (an address key to its coordinate, or
      to None when every strategy failed) and the overrides. */
  datatype Geocoder = Geocoder(cache: map<string, Option<Coord>>, overrides: map<string, Override>)

  /** `address.strip().lower()`, the key of both maps. */
  function CacheKey(address: string): string
  {
    Lower(Strip(address))
  }

  /** State after loading the overrides: an empty cache. */
  function Initial(overrides: map<string, Override>): (g: Geocoder)
    ensures Valid(g) && g.cache == map[] && g.overrides == overrides
  {
    Geocoder(map[], overrides)
  }

  /** A cached override key holds the override's coordinate. */
  predicate OverridesCached(g: Geocoder)
  {
    forall k :: k in g.overrides && k in g.cache ==> g.cache[k] == Some(g.overrides[k].coord)
  }

  /** Every cached coordinate passed the window check or is an override. */
  predicate CacheSound(g: Geocoder)
  {
    forall k :: k in g.cache && g.cache[k].Some? ==>
      InWindow(g.cache[k].value) || (k in g.overrides && g.cache[k].value == g.overrides[k].coord)
  }

  predicate Valid(g: Geocoder)
  {
    OverridesCached(g) && CacheSound(g)
  }

  /** One call of `geocode`: its answer, the state after it, and the queries
      it sent. */
  datatype Lookup = Lookup(result: Option<Coord>, state: Geocoder, asked: seq<Query>)

  /** The body of `geocode` once the key is computed: the cache first, then
      the overrides, then the miss path. Every path stores its answer under
      the key; entries already cached are never changed and the overrides
      are never touched. */
  function Resolve(g: Geocoder, key: string, address: string, miss: string -> Outcome): (o: Lookup)
    ensures key in o.state.cache && o.state.cache[key] == o.result
    ensures o.state.cache.Keys == g.cache.Keys + {key}
    ensures forall k :: k in g.cache ==> o.state.cache[k] == g.cache[k]
    ensures o.state.overrides == g.overrides
    ensures key in g.cache ==> o.result == g.cache[key] && o.asked == [] && o.state == g
    ensures key !in g.cache && key in g.overrides ==> o.result == Some(g.overrides[key].coord) && o.asked == []
    ensures key !in g.cache && key !in g.overrides ==> o.result == miss(address).result && o.asked == miss(address).asked
  {
    if key in g.cache then Lookup(g.cache[key], g, [])
    else if key in g.overrides then
      var c := g.overrides[key].coord;
      Lookup(Some(c), g.(cache := g.cache[key := Some(c)]), [])
    else
      var o := miss(address);
      Lookup(o.result, g.(cache := g.cache[key := o.result]), o.asked)
  }

  /** `geocode`: compute the key, then resolve it. */
  function Geocode(g: Geocoder, address: string, miss: string -> Outcome): (o: Lookup)
    ensures CacheKey(address) in o.state.cache && o.state.cache[CacheKey(address)] == o.result
    ensures o.state.cache.Keys == g.cache.Keys + {CacheKey(address)}
    ensures forall k :: k in g.cache ==> o.state.cache[k] == g.cache[k]
    ensures o.state.overrides == g.overrides
    ensures CacheKey(address) in g.cache ==> o.result == g.cache[CacheKey(address)] && o.asked == [] && o.state == g
    ensures CacheKey(address) !in g.cache && CacheKey(address) in g.overrides ==>
              o.result == Some(g.overrides[CacheKey(address)].coord) && o.asked == []
    ensures CacheKey(address) !in g.cache && CacheKey(address) !in g.overrides ==>
              o.result == miss(address).result && o.asked == miss(address).asked
  {
    Resolve(g, CacheKey(address), address, miss)
  }

  /** A second lookup of the same address, whatever the service, is a cache
      hit: same answer (a remembered failure included), no query, no change. */
  lemma GeocodeTwice(g: Geocoder, address: string, miss: string -> Outcome, miss': string -> Outcome)
    ensures var o := Geocode(g, address, miss);
            var o' := Geocode(o.state, address, miss');
            o'.result == o.result && o'.asked == [] && o'.state == o.state
  {
  }

  /** Lookups keep the state valid when the miss path respects the window. */
  lemma ResolveValid(g: Geocoder, key: string, address: string, miss: string -> Outcome)
    requires Valid(g) && Windowed(miss)
    ensures Valid(Resolve(g, key, address, miss).state)
  {
    var o := Resolve(g, key, address, miss);
    if key !in g.cache && key !in g.overrides {
      assert o.result == miss(address).result;
    }
  }

  lemma GeocodeValid(g: Geocoder, address: string, miss: string -> Outcome)
    requires Valid(g) && Windowed(miss)
    ensures Valid(Geocode(g, address, miss).state)
  {
    ResolveValid(g, CacheKey(address), address, miss);
  }

  /** In a valid state an override always wins, although the cache is
      consulted first, and no query is sent. */
  lemma OverrideWins(g: Geocoder, address: string, miss: string -> Outcome)
    requires Valid(g) && CacheKey(address) in g.overrides
    ensures var o := Geocode(g, address, miss);
            o.result == Some(g.overrides[CacheKey(address)].coord) && o.asked == []
  {
  }

  /** `add_override`: record the coordinate under the address key, with the
      stripped address, and put it in the cache as well. */
  function AddOverride(g: Geocoder, address: string, c: Coord): (g': Geocoder)
    ensures g'.overrides.Keys == g.overrides.Keys + {CacheKey(address)}
    ensures g'.overrides[CacheKey(address)] == Override(c, Strip(address))
    ensures g'.cache.Keys == g.cache.Keys + {CacheKey(address)}
    ensures g'.cache[CacheKey(address)] == Some(c)
    ensures forall k :: k != CacheKey(address) && k in g.overrides ==> g'.overrides[k] == g.overrides[k]
    ensures forall k :: k != CacheKey(address) && k in g.cache ==> g'.cache[k] == g.cache[k]
  {
    var key := CacheKey(address);
    Geocoder(g.cache[key := Some(c)], g.overrides[key := Override(c, Strip(address))])
  }

  lemma AddOverrideValid(g: Geocoder, address: string, c: Coord)
    requires Valid(g)
    ensures Valid(AddOverride(g, address, c))
  {
  }

  /** Right after `add_override`, looking the address up (or any text with
      the same key) gives the manual coordinate without a query. */
  lemma AddOverrideThenGeocode(g: Geocoder, address: string, c: Coord, other: string, miss: string -> Outcome)
    requires CacheKey(other) == CacheKey(address)
    ensures var o := Geocode(AddOverride(g, address, c), other, miss);
            o.result == Some(c) && o.asked == []
  {
  }

  /** `clear_cache`: forget every cached answer; the overrides stay. */
  function ClearCache(g: Geocoder): (g': Geocoder)
    ensures g'.cache == map[] && g'.overrides == g.overrides
    ensures Valid(g')
  {
    g.(cache := map[])
  }

  /** After `clear_cache`, an address without override takes the miss path
      again, and one with an override gets the override. */
  lemma ClearCacheForgets(g: Geocoder, address: string, miss: string -> Outcome)
    ensures var o := Geocode(ClearCache(g), address, miss);
            && (CacheKey(address) !in g.overrides ==> o.result == miss(address).result && o.asked == miss(address).asked)
            && (CacheKey(address) in g.overrides ==> o.result == Some(g.overrides[CacheKey(address)].coord))
  {
  }

  // ---------------------------------------------------------------------------
  // Batches
  // ---------------------------------------------------------------------------

  /** One element of `geocode_batch`'s list: the address as given and its
      coordinate, or None. */
  datatype Located = Located(address: string, coord: Option<Coord>)

  /** A batch computed one address after the other: the answers so far and
      the state after the last lookup. */
  datatype Progress = Progress(results: seq<Located>, state: Geocoder)

  /** Sequential reference for `geocode_batch`, defined on the last address.
      The key function is a parameter (the service uses `CacheKey`), so the
      facts below hold for any normalisation of the addresses. */
  function Batch(g: Geocoder, addresses: seq<string>, key: string -> string, miss: string -> Outcome): (b: Progress)
    decreases |addresses|
  {
    if addresses == [] then Progress([], g)
    else
      var n := |addresses| - 1;
      var prev := Batch(g, addresses[..n], key, miss);
      var o := Resolve(prev.state, key(addresses[n]), addresses[n], miss);
      Progress(prev.results + [Located(addresses[n], o.result)], o.state)
  }

  /** What a batch promises: one answer per address, in order; each answer is
      what the final cache holds for that address's key; entries cached before
      the batch keep their value and the overrides are untouched. */
  ghost predicate Answers(g: Geocoder, addresses: seq<string>, key: string -> string, b: Progress)
  {
    && |b.results| == |addresses|
    && (forall i :: 0 <= i < |addresses| ==> b.results[i].address == addresses[i])
    && (forall i :: 0 <= i < |addresses| ==>
          key(addresses[i]) in b.state.cache && b.results[i].coord == b.state.cache[key(addresses[i])])
    && (forall k :: k in g.cache ==> k in b.state.cache && b.state.cache[k] == g.cache[k])
    && b.state.overrides == g.overrides
  }

  lemma {:induction false} BatchAnswers(g: Geocoder, addresses: seq<string>, key: string -> string, miss: string -> Outcome)
    ensures Answers(g, addresses, key, Batch(g, addresses, key, miss))
    decreases |addresses|
  {
    if addresses != [] {
      var n := |addresses| - 1;
      var prev := Batch(g, addresses[..n], key, miss);
      BatchAnswers(g, addresses[..n], key, miss);
      BatchAnswersStep(g, addresses, key, prev, Resolve(prev.state, key(addresses[n]), addresses[n], miss));
    }
  }

  lemma BatchAnswersStep(g: Geocoder, addresses: seq<string>, key: string -> string, prev: Progress, o: Lookup)
    requires |addresses| > 0
    requires Answers(g, addresses[..|addresses| - 1], key, prev)
    requires key(addresses[|addresses| - 1]) in o.state.cache
    requires o.state.cache[key(addresses[|addresses| - 1])] == o.result
    requires forall k :: k in prev.state.cache ==> k in o.state.cache && o.state.cache[k] == prev.state.cache[k]
    requires o.state.overrides == prev.state.overrides
    ensures Answers(g, addresses, key, Progress(prev.results + [Located(addresses[|addresses| - 1], o.result)], o.state))
  {
    var n := |addresses| - 1;
    var b := Progress(prev.results + [Located(addresses[n], o.result)], o.state);
    forall i | 0 <= i < n
      ensures b.results[i].address == addresses[i]
      ensures key(addresses[i]) in b.state.cache && b.results[i].coord == b.state.cache[key(addresses[i])]
    {
      assert addresses[..n][i] == addresses[i];
      assert b.results[i] == prev.results[i];
    }
    assert b.results[n] == Located(addresses[n], o.result);
  }

  /** A batch keeps the state valid when the miss path respects the window. */
  lemma {:induction false} BatchValid(g: Geocoder, addresses: seq<string>, key: string -> string, miss: string -> Outcome)
    requires Valid(g) && Windowed(miss)
    ensures Valid(Batch(g, addresses, key, miss).state)
    decreases |addresses|
  {
    if addresses != [] {
      var n := |addresses| - 1;
      BatchValid(g, addresses[..n], key, miss);
      ResolveValid(Batch(g, addresses[..n], key, miss).state, key(addresses[n]), addresses[n], miss);
    }
  }

  lemma BatchSnoc(g: Geocoder, addresses: seq<string>, key: string -> string, miss: string -> Outcome, i: nat)
    requires i < |addresses|
    ensures var prev := Batch(g, addresses[..i], key, miss);
            var o := Resolve(prev.state, key(addresses[i]), addresses[i], miss);
            Batch(g, addresses[..i + 1], key, miss) == Progress(prev.results + [Located(addresses[i], o.result)], o.state)
  {
    assert addresses[..i + 1][..i] == addresses[..i];
  }

  /** `geocode_batch` as written: geocode each address in turn and pause
      (`pauses` counts the `GEOCODE_DELAY` sleeps) when the key is not in the
      cache after the lookup, except after the last address. Because every
      lookup stores its key, that guard never holds. */
  method GeocodeBatch(g: Geocoder, addresses: seq<string>, miss: string -> Outcome)
    returns (results: seq<Located>, g': Geocoder, pauses: nat)
    ensures Progress(results, g') == Batch(g, addresses, CacheKey, miss)
    ensures Answers(g, addresses, CacheKey, Progress(results, g'))
    ensures Valid(g) && Windowed(miss) ==> Valid(g')
    ensures pauses == 0
  {
    results, g', pauses := [], g, 0;
    for i := 0 to |addresses|
      invariant Progress(results, g') == Batch(g, addresses[..i], CacheKey, miss)
      invariant pauses == 0
    {
      var addr := addresses[i];
      var o := Geocode(g', addr, miss);
      BatchSnoc(g, addresses, CacheKey, miss, i);
      results := results + [Located(addr, o.result)];
      g' := o.state;
      pauses := pauses + if CacheKey(addr) !in g'.cache && i < |addresses| - 1 then 1 else 0;
    }
    assert addresses[..|addresses|] == addresses;
    BatchAnswers(g, addresses, CacheKey, miss);
    if Valid(g) && Windowed(miss) {
      BatchValid(g, addresses, CacheKey, miss);
    }
  }

  /** How many of the addresses are not yet cached when their turn comes:
      the lookups that may reach the service. */
  function FreshLookups(g: Geocoder, addresses: seq<string>, key: string -> string, miss: string -> Outcome): nat
    decreases |addresses|
  {
    if addresses == [] then 0
    else
      var n := |addresses| - 1;
      var before := Batch(g, addresses[..n], key, miss).state;
      FreshLookups(g, addresses[..n], key, miss) + (if key(addresses[n]) in before.cache then 0 else 1)
  }

  lemma FreshSnoc(g: Geocoder, addresses: seq<string>, key: string -> string, miss: string -> Outcome, i: nat)
    requires i < |addresses|
    ensures FreshLookups(g, addresses[..i + 1], key, miss)
            == FreshLookups(g, addresses[..i], key, miss)
               + (if key(addresses[i]) in Batch(g, addresses[..i], key, miss).state.cache then 0 else 1)
  {
    assert addresses[..i + 1][..i] == addresses[..i];
  }

  /** `geocode_batch` with the pause decided before the lookup, as the rate
      limit of the service requires: one pause after every address that was
      not cached when its turn came, except the last. Its answers and final
      state are those of the as-written batch. */
  method ThrottledBatch(g: Geocoder, addresses: seq<string>, miss: string -> Outcome)
    returns (results: seq<Located>, g': Geocoder, pauses: nat)
    ensures Progress(results, g') == Batch(g, addresses, CacheKey, miss)
    ensures Answers(g, addresses, CacheKey, Progress(results, g'))
    ensures |addresses| > 0 ==> pauses == FreshLookups(g, addresses[..|addresses| - 1], CacheKey, miss)
  {
    results, g', pauses := [], g, 0;
    for i := 0 to |addresses|
      invariant Progress(results, g') == Batch(g, addresses[..i], CacheKey, miss)
      invariant i < |addresses| ==> pauses == FreshLookups(g, addresses[..i], CacheKey, miss)
      invariant 0 < i == |addresses| ==> pauses == FreshLookups(g, addresses[..i - 1], CacheKey, miss)
    {
      var addr := addresses[i];
      var uncached := CacheKey(addr) !in g'.cache;
      var o := Geocode(g', addr, miss);
      BatchSnoc(g, addresses, CacheKey, miss, i);
      FreshSnoc(g, addresses, CacheKey, miss, i);
      results := results + [Located(addr, o.result)];
      g' := o.state;
      pauses := pauses + if uncached && i < |addresses| - 1 then 1 else 0;
    }
    assert addresses[..|addresses|] == addresses;
    BatchAnswers(g, addresses, CacheKey, miss);
  }

  /** The smallest case that separates the two batches: with two addresses
      whose first is not cached, the first lookup may reach the service, so
      the intended count is one pause where the as-written batch makes none. */
  lemma FreshBeforeLast(g: Geocoder, a: string, b: string, miss: string -> Outcome)
    requires CacheKey(a) !in g.cache
    ensures FreshLookups(g, [a, b][..1], CacheKey, miss) == 1
  {
    assert [a, b][..1] == [a];
    assert [a][..0] == [];
  }
}
