/** Shared vocabulary of the route planner: optional values, coordinates in
    integer micro-degrees, and the configuration constants of the service. */
module Common {

  /** The conventional Some/None datatype, standing for Python's `X | None`. */
  datatype Option<+T> = None | Some(value: T)

  /** A WGS84 position, latitude and longitude in micro-degrees
      (37.802 degrees is 37802000). */
  datatype Coord = Coord(lat: int, lon: int)

  /** Maximum number of stops accepted by one optimisation request. */
  const MaxStops: nat := 200

  /** Centre of Posadas (Córdoba), the sentinel location of failed stops. */
  const PosadasCenter: Coord := Coord(37802000, -5105000)

  /** Half-width of the acceptance window around the town centre (0.15 degrees). */
  const WindowTolerance: nat := 150000

  /** Default origin of every route. */
  const StartAddress: string := "Calle Callejon de Jesús 1, Posadas, Córdoba, España"

  function Abs(x: int): (r: nat)
    ensures r == x || r == -x
  {
    if x < 0 then -x else x
  }

  /** Sum of a sequence of integers, front to back. */
  function Sum(xs: seq<int>): int
  {
    if xs == [] then 0 else xs[0] + Sum(xs[1..])
  }

  lemma {:induction false} SumAppend(xs: seq<int>, ys: seq<int>)
    ensures Sum(xs + ys) == Sum(xs) + Sum(ys)
  {
    if xs == [] {
      assert xs + ys == ys;
    } else {
      assert (xs + ys)[1..] == xs[1..] + ys;
      SumAppend(xs[1..], ys);
    }
  }

  /** The indices below `n` that `answer` answers, in increasing order. */
  function Kept<T>(answer: nat -> Option<T>, n: nat): seq<nat>
  {
    if n == 0 then [] else Kept(answer, n - 1) + (if answer(n - 1).Some? then [n - 1] else [])
  }

  /** The loop `for r in range(n)` that keeps the answers there are and
      skips the rest. */
  function Collect<T>(answer: nat -> Option<T>, n: nat): seq<T>
  {
    if n == 0 then [] else Collect(answer, n - 1) + (if answer(n - 1).Some? then [answer(n - 1).value] else [])
  }

  /** The k-th collected answer is the answer at the k-th kept index; the kept
      indices increase and all are answered. */
  lemma {:induction false} CollectSpec<T>(answer: nat -> Option<T>, n: nat)
    ensures var ks := Kept(answer, n);
            var xs := Collect(answer, n);
            && |xs| == |ks| <= n
            && (forall k :: 0 <= k < |ks| ==> ks[k] < n && answer(ks[k]).Some? && xs[k] == answer(ks[k]).value)
            && (forall k, l :: 0 <= k < l < |ks| ==> ks[k] < ks[l])
  {
    if n > 0 {
      CollectSpec(answer, n - 1);
    }
  }

  /** Every index below `n` that is answered is kept. */
  lemma {:induction false} KeptComplete<T>(answer: nat -> Option<T>, n: nat, r: nat)
    requires r < n && answer(r).Some?
    ensures r in Kept(answer, n)
  {
    if r < n - 1 {
      KeptComplete(answer, n - 1, r);
    }
  }

  /** Two answers that split every index between them keep `n` indices
      together. */
  lemma {:induction false} KeptSplit<T, U>(a: nat -> Option<T>, b: nat -> Option<U>, n: nat)
    requires forall i :: 0 <= i < n ==> (a(i).Some? <==> b(i).None?)
    ensures |Kept(a, n)| + |Kept(b, n)| == n
  {
    if n > 0 {
      KeptSplit(a, b, n - 1);
    }
  }

  /** The non-empty image under `f` of the i-th element, if there is one. */
  function NonEmptyImage(f: string -> string, xs: seq<string>): nat -> Option<string>
  {
    (i: nat) => if i < |xs| && f(xs[i]) != [] then Some(f(xs[i])) else None
  }

  /** The images `[f(x) for x in xs]`. */
  function Images(f: string -> string, xs: seq<string>): (ys: seq<string>)
    ensures |ys| == |xs| && forall i :: 0 <= i < |xs| ==> ys[i] == f(xs[i])
  {
    seq(|xs|, i requires 0 <= i < |xs| => f(xs[i]))
  }

  /** A string unchanged, for lists filtered as they are. */
  function Same(s: string): string
  {
    s
  }

  /** `[f(x) for x in xs if f(x)]`. */
  function Compact(f: string -> string, xs: seq<string>): seq<string>
  {
    if xs == [] then [] else (if f(xs[0]) != [] then [f(xs[0])] else []) + Compact(f, xs[1..])
  }

  /** Collecting the non-empty images of `[x] + xs` starts with that of `x`. */
  lemma {:induction false} CollectImagesCons(f: string -> string, xs: seq<string>, n: nat)
    requires 0 < |xs| && n < |xs|
    ensures Collect(NonEmptyImage(f, xs), n + 1)
            == (if f(xs[0]) != [] then [f(xs[0])] else []) + Collect(NonEmptyImage(f, xs[1..]), n)
  {
    if n > 0 {
      CollectImagesCons(f, xs, n - 1);
      assert xs[1..][n - 1] == xs[n];
    }
  }

  /** The comprehension is the loop that keeps the non-empty images. */
  lemma {:induction false} CompactIsCollect(f: string -> string, xs: seq<string>)
    ensures Compact(f, xs) == Collect(NonEmptyImage(f, xs), |xs|)
  {
    if xs != [] {
      CompactIsCollect(f, xs[1..]);
      CollectImagesCons(f, xs, |xs| - 1);
    }
  }

  /** `Compact` keeps, in input order and once each, the non-empty image of
      exactly the inputs whose image is non-empty: its k-th element is the
      image of the k-th such input. */
  lemma CompactSpec(f: string -> string, xs: seq<string>)
    ensures var r := Compact(f, xs);
            var ks := Kept(NonEmptyImage(f, xs), |xs|);
            && |r| == |ks| <= |xs|
            && (forall k :: 0 <= k < |ks| ==> ks[k] < |xs| && r[k] == f(xs[ks[k]]) && r[k] != [])
            && (forall k, l :: 0 <= k < l < |ks| ==> ks[k] < ks[l])
            && (forall j :: 0 <= j < |xs| ==> (j in ks <==> f(xs[j]) != []))
  {
    var a := NonEmptyImage(f, xs);
    CompactIsCollect(f, xs);
    CollectSpec(a, |xs|);
    forall j | 0 <= j < |xs| && f(xs[j]) != []
      ensures j in Kept(a, |xs|)
    {
      KeptComplete(a, |xs|, j);
    }
  }

  /** `Compact` is the images with every empty one removed, as a multiset. */
  lemma {:induction false} CompactMultiset(f: string -> string, xs: seq<string>)
    ensures multiset(Compact(f, xs)) == multiset(Images(f, xs))[[] := 0]
  {
    if xs != [] {
      CompactMultiset(f, xs[1..]);
      var m := multiset(Images(f, xs[1..]));
      assert Images(f, xs) == [f(xs[0])] + Images(f, xs[1..]);
      if f(xs[0]) == [] {
        assert multiset(Images(f, xs)) == m[[] := m[[]] + 1];
      } else {
        assert multiset(Images(f, xs))[[] := 0] == m[[] := 0] + multiset{f(xs[0])};
      }
    }
  }
}
