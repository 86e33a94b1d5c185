/** The routing service: Spanish turn-by-turn text, the distance and duration
    labels, the request sent to the VROOM solver and the reading of its
    answer, and the step list taken from an OSRM route. The solver and the
    routing engine are parameters: functions from the request to an optional
    reply, None standing for a failed or refused call. Distances are whole
    meters and durations whole seconds. */
module Routing {
  import opened Common
  import opened Text

  // ---------------------------------------------------------------------------
  // Instruction text
  // ---------------------------------------------------------------------------

  /** `MANEUVER_ES`: the Spanish text of the maneuver types with a fixed
      translation. */
  function ManeuverEs(mtype: string): Option<string>
  {
    if mtype == "depart" then Some("Salir")
    else if mtype == "arrive" then Some("Llegar al destino")
    else if mtype == "continue" then Some("Continuar")
    else if mtype == "new name" then Some("Continuar")
    else if mtype == "roundabout" then Some("Entrar en la rotonda")
    else if mtype == "exit roundabout" then Some("Salir de la rotonda")
    else if mtype == "rotary" then Some("Entrar en la glorieta")
    else if mtype == "merge" then Some("Incorporarse")
    else if mtype == "on ramp" then Some("Tomar la rampa de acceso")
    else if mtype == "off ramp" then Some("Tomar la salida")
    else if mtype == "notification" then Some("")
    else None
  }

  /** `MODIFIER_ES`: the Spanish text of the turn directions. */
  function ModifierEs(modifier: string): Option<string>
  {
    if modifier == "left" then Some("a la izquierda")
    else if modifier == "right" then Some("a la derecha")
    else if modifier == "slight left" then Some("ligeramente a la izquierda")
    else if modifier == "slight right" then Some("ligeramente a la derecha")
    else if modifier == "sharp left" then Some("fuerte a la izquierda")
    else if modifier == "sharp right" then Some("fuerte a la derecha")
    else if modifier == "straight" then Some("de frente")
    else if modifier == "uturn" then Some("giro en U")
    else None
  }

  /** `MODIFIER_ES.get(modifier, modifier)`: an unknown direction passes
      through verbatim. */
  function Translate(modifier: string): (r: string)
    ensures ModifierEs(modifier).Some? ==> r == ModifierEs(modifier).value
    ensures ModifierEs(modifier).None? ==> r == modifier
  {
    match ModifierEs(modifier)
    case Some(t) => t
    case None => modifier
  }

  /** Every maneuver text is already free of surrounding whitespace. */
  lemma ManeuversStripped(mtype: string)
    ensures ManeuverEs(mtype).Some? ==> Stripped(ManeuverEs(mtype).value)
  {
  }

  /** Every direction text is non-empty and free of surrounding whitespace. */
  lemma ModifiersStripped(modifier: string)
    ensures ModifierEs(modifier).Some? ==> Stripped(ModifierEs(modifier).value) && ModifierEs(modifier).value != []
  {
  }

  /** `s.replace(a, b)` for single characters. */
  function ReplaceChar(s: string, a: char, b: char): (r: string)
    ensures |r| == |s|
    ensures forall i :: 0 <= i < |s| ==> r[i] == (if s[i] == a then b else s[i])
  {
    seq(|s|, i requires 0 <= i < |s| => if s[i] == a then b else s[i])
  }

  /** The maneuver part of the text, before the street name. */
  function ManeuverText(mtype: string, modifier: string): string
  {
    match ManeuverEs(mtype)
    case Some(t) => t
    case None =>
      if mtype == "turn" then "Girar " + Translate(modifier)
      else if mtype == "end of road" then "Final de calle, girar " + Translate(modifier)
      else if mtype == "fork" then "Desvío " + Translate(modifier)
      else
        var text := Capitalize(ReplaceChar(mtype, '_', ' '));
        if modifier != [] then text + " " + Translate(modifier) else text
  }

  /** The text before the final strip: the maneuver, then " por <name>" when
      the step has a street name. */
  function DraftText(mtype: string, modifier: string, name: string): string
  {
    var text := ManeuverText(mtype, modifier);
    if name != [] then text + " por " + name else text
  }

  /** `_step_text`: the stripped draft, or "Continuar" when nothing is left.
      The result is never empty and has no surrounding whitespace. */
  function StepText(mtype: string, modifier: string, name: string): (r: string)
    ensures r != [] && Stripped(r)
  {
    var t := Strip(DraftText(mtype, modifier, name));
    if t == [] then "Continuar" else t
  }

  /** A step on a named street ends with "por <name>". */
  lemma StepTextNamed(mtype: string, modifier: string, name: string)
    requires name != [] && Stripped(name)
    ensures EndsWith(StepText(mtype, modifier, name), "por " + name)
  {
    var y := "por " + name;
    DraftNamed(mtype, modifier, name);
    assert y[|y| - 1] == name[|name| - 1];
    StripKeepsTail(ManeuverText(mtype, modifier) + " ", y);
  }

  lemma DraftNamed(mtype: string, modifier: string, name: string)
    requires name != []
    ensures DraftText(mtype, modifier, name) == (ManeuverText(mtype, modifier) + " ") + ("por " + name)
  {
    var m := ManeuverText(mtype, modifier);
    assert " por " + name == " " + ("por " + name);
    ConcatAssoc(m, " ", "por " + name);
  }

  /** Stripping a text that ends in a block with non-space ends keeps the
      whole block at the end. */
  lemma StripKeepsTail(x: string, y: string)
    requires y != [] && !IsSpace(y[0]) && !IsSpace(y[|y| - 1])
    ensures EndsWith(Strip(x + y), y)
  {
    var s := x + y;
    var u := TrimStart(s);
    var k := |s| - |u|;
    assert s[|x|] == y[0];
    assert u == x[k..] + y;
    assert u[|u| - 1] == y[|y| - 1];
    assert TrimEnd(u) == u;
    assert u[|u| - |y|..] == y;
  }

  /** A maneuver of the table on an unnamed street reads as its translation;
      the empty one ("notification") falls back to "Continuar". */
  lemma StepTextOfTable(mtype: string, modifier: string)
    requires ManeuverEs(mtype).Some?
    ensures StepText(mtype, modifier, "") == if ManeuverEs(mtype).value == "" then "Continuar" else ManeuverEs(mtype).value
  {
    ManeuversStripped(mtype);
    StripStripped(ManeuverEs(mtype).value);
  }

  /** "notification" on an unnamed street gives the fallback text. */
  lemma NotificationFallsBack(modifier: string)
    ensures StepText("notification", modifier, "") == "Continuar"
  {
    assert ManeuverEs("notification") == Some("");
    assert DraftText("notification", modifier, "") == "";
    assert Strip("") == "";
  }

  /** A maneuver prefix followed by a translated direction, with no street
      name, survives the final strip unchanged. */
  lemma PrefixedDirection(mtype: string, prefix: string, modifier: string)
    requires ManeuverEs(mtype) == None
    requires ManeuverText(mtype, modifier) == prefix + Translate(modifier)
    requires prefix != [] && !IsSpace(prefix[0])
    requires ModifierEs(modifier).Some? || (modifier != [] && Stripped(modifier))
    ensures StepText(mtype, modifier, "") == prefix + Translate(modifier)
  {
    var d := Translate(modifier);
    var t := prefix + d;
    assert DraftText(mtype, modifier, "") == t;
    assert Stripped(t) by {
      ModifiersStripped(modifier);
      assert t[0] == prefix[0];
      assert t[|t| - 1] == d[|d| - 1];
    }
    StripStripped(t);
  }

  /** A turn on an unnamed street reads "Girar " and the translated
      direction; a direction outside the table appears as given. */
  lemma StepTextTurn(modifier: string)
    requires ModifierEs(modifier).Some? || (modifier != [] && Stripped(modifier))
    ensures StepText("turn", modifier, "") == "Girar " + Translate(modifier)
  {
    assert ManeuverEs("turn") == None;
    PrefixedDirection("turn", "Girar ", modifier);
  }

  /** The end of a road on an unnamed street reads "Final de calle, girar "
      and the translated direction. */
  lemma StepTextEndOfRoad(modifier: string)
    requires ModifierEs(modifier).Some? || (modifier != [] && Stripped(modifier))
    ensures StepText("end of road", modifier, "") == "Final de calle, girar " + Translate(modifier)
  {
    assert ManeuverEs("end of road") == None;
    PrefixedDirection("end of road", "Final de calle, girar ", modifier);
  }

  /** A fork on an unnamed street reads "Desvío " and the translated
      direction. */
  lemma StepTextFork(modifier: string)
    requires ModifierEs(modifier).Some? || (modifier != [] && Stripped(modifier))
    ensures StepText("fork", modifier, "") == "Desvío " + Translate(modifier)
  {
    assert ManeuverEs("fork") == None;
    PrefixedDirection("fork", "Desvío ", modifier);
  }

  // ---------------------------------------------------------------------------
  // Distance and duration labels
  // ---------------------------------------------------------------------------

  /** `math.ceil(seconds / 60)` for whole seconds. */
  function CeilMinutes(seconds: nat): (mins: nat)
    ensures 60 * mins - 60 < seconds <= 60 * mins
  {
    (seconds + 59) / 60
  }

  /** `_format_duration`: "N min" below an hour, else "H h", or "H h M min"
      when the minutes are not a whole number of hours (the words of each
      label joined by single spaces). */
  function FormatDuration(seconds: nat): (r: string)
  {
    var mins := CeilMinutes(seconds);
    if mins < 60 then JoinWords([NatToString(mins), "min"])
    else if mins % 60 == 0 then JoinWords([NatToString(mins / 60), "h"])
    else JoinWords([NatToString(mins / 60), "h", NatToString(mins % 60), "min"])
  }

  /** Reads a duration label back into minutes, accepting only the labels
      `_format_duration` can produce: "N min" with N below 60, "H h" with at
      least one hour, and "H h M min" with at least one hour and 1 to 59
      minutes. */
  function ReadDuration(r: string): Option<nat>
  {
    ReadDurationWords(Words(r))
  }

  function ReadDurationWords(ws: seq<string>): Option<nat>
  {
    if |ws| == 2 && Numeral(ws[0]) && ws[1] == "min" && DigitsValue(ws[0]) < 60 then Some(DigitsValue(ws[0]))
    else if |ws| == 2 && Numeral(ws[0]) && ws[1] == "h" && DigitsValue(ws[0]) >= 1 then Some(60 * DigitsValue(ws[0]))
    else if |ws| == 4 && Numeral(ws[0]) && ws[1] == "h" && Numeral(ws[2]) && ws[3] == "min"
            && DigitsValue(ws[0]) >= 1 && 1 <= DigitsValue(ws[2]) <= 59 then
      Some(60 * DigitsValue(ws[0]) + DigitsValue(ws[2]))
    else None
  }

  /** A duration has one label: two labels that read back as the same
      minutes are the same words. With `FormatDurationReadsBack` this fixes
      which of the three forms the formatter picks. */
  lemma {:induction false} DurationLabelUnique(r1: string, r2: string)
    requires ReadDuration(r1).Some? && ReadDuration(r1) == ReadDuration(r2)
    ensures Words(r1) == Words(r2)
  {
    var m := ReadDuration(r1).value;
    var w1, w2 := Words(r1), Words(r2);
    DurationLabelWords(r1);
    DurationLabelWords(r2);
    if m < 60 {
      assert w1 == [NatToString(m), "min"] == w2;
    } else if m % 60 == 0 {
      assert w1 == [NatToString(m / 60), "h"] == w2;
    } else {
      assert w1 == [NatToString(m / 60), "h", NatToString(m % 60), "min"] == w2;
    }
  }

  /** The words of an accepted label, as a function of the minutes read. */
  lemma DurationLabelWords(r: string)
    requires ReadDuration(r).Some?
    ensures var m := ReadDuration(r).value;
            var ws := Words(r);
            && (m < 60 ==> ws == [NatToString(m), "min"])
            && (m >= 60 && m % 60 == 0 ==> ws == [NatToString(m / 60), "h"])
            && (m >= 60 && m % 60 != 0 ==> ws == [NatToString(m / 60), "h", NatToString(m % 60), "min"])
  {
    DurationWordsOfValue(Words(r));
  }

  lemma DurationWordsOfValue(ws: seq<string>)
    requires ReadDurationWords(ws).Some?
    ensures var m := ReadDurationWords(ws).value;
            && (m < 60 ==> ws == [NatToString(m), "min"])
            && (m >= 60 && m % 60 == 0 ==> ws == [NatToString(m / 60), "h"])
            && (m >= 60 && m % 60 != 0 ==> ws == [NatToString(m / 60), "h", NatToString(m % 60), "min"])
  {
    var m := ReadDurationWords(ws).value;
    NumeralReadsBack(ws[0]);
    if |ws| == 4 {
      NumeralReadsBack(ws[2]);
      var h, k := DigitsValue(ws[0]), DigitsValue(ws[2]);
      assert m == 60 * h + k;
      assert m / 60 == h && m % 60 == k;
      assert ws == [ws[0], ws[1], ws[2], ws[3]];
    } else if ws[1] == "h" {
      var h := DigitsValue(ws[0]);
      assert m == 60 * h;
      assert m / 60 == h && m % 60 == 0;
      assert ws == [ws[0], ws[1]];
    } else {
      assert ws == [ws[0], ws[1]];
    }
  }

  lemma NumeralIsWord(n: nat)
    ensures IsWord(NatToString(n)) && Numeral(NatToString(n))
  {
    NatToStringNumeral(n);
  }

  /** A label made of words reads as those words. */
  lemma ReadJoined(ws: seq<string>)
    requires forall k :: 0 <= k < |ws| ==> IsWord(ws[k])
    ensures ReadDuration(JoinWords(ws)) == ReadDurationWords(ws)
  {
    WordsOfJoin(ws);
  }

  lemma ReadMinutesLabel(mins: nat)
    requires mins < 60
    ensures ReadDuration(JoinWords([NatToString(mins), "min"])) == Some(mins)
  {
    var a := NatToString(mins);
    var ws := [a, "min"];
    assert forall k :: 0 <= k < |ws| ==> IsWord(ws[k]) by {
      NumeralIsWord(mins);
      assert IsWord("min");
    }
    assert ReadDurationWords(ws) == Some(mins) by {
      NatToStringNumeral(mins);
      MinutesWords(a);
    }
    ReadJoined(ws);
  }

  lemma ReadHoursLabel(hours: nat)
    requires hours >= 1
    ensures ReadDuration(JoinWords([NatToString(hours), "h"])) == Some(60 * hours)
  {
    var a := NatToString(hours);
    var ws := [a, "h"];
    assert forall k :: 0 <= k < |ws| ==> IsWord(ws[k]) by {
      NumeralIsWord(hours);
      assert IsWord("h");
    }
    assert ReadDurationWords(ws) == Some(60 * hours) by {
      NatToStringNumeral(hours);
      HoursWords(a);
    }
    ReadJoined(ws);
  }

  lemma ReadHoursMinutesLabel(hours: nat, mins: nat)
    requires hours >= 1 && 1 <= mins <= 59
    ensures ReadDuration(JoinWords([NatToString(hours), "h", NatToString(mins), "min"])) == Some(60 * hours + mins)
  {
    var ws := [NatToString(hours), "h", NatToString(mins), "min"];
    HoursMinutesAreWords(hours, mins);
    HoursMinutesReads(hours, mins);
    ReadJoined(ws);
  }

  lemma HoursMinutesAreWords(hours: nat, mins: nat)
    ensures var ws := [NatToString(hours), "h", NatToString(mins), "min"];
            forall k :: 0 <= k < |ws| ==> IsWord(ws[k])
  {
    NumeralIsWord(hours);
    NumeralIsWord(mins);
    assert IsWord("h") && IsWord("min");
  }

  lemma HoursMinutesReads(hours: nat, mins: nat)
    requires hours >= 1 && 1 <= mins <= 59
    ensures ReadDurationWords([NatToString(hours), "h", NatToString(mins), "min"]) == Some(60 * hours + mins)
  {
    NatToStringNumeral(hours);
    NatToStringNumeral(mins);
    HoursMinutesWords(NatToString(hours), NatToString(mins));
  }

  lemma MinutesWords(a: string)
    requires Numeral(a) && DigitsValue(a) < 60
    ensures ReadDurationWords([a, "min"]) == Some(DigitsValue(a))
  {
  }

  lemma HoursWords(a: string)
    requires Numeral(a) && DigitsValue(a) >= 1
    ensures ReadDurationWords([a, "h"]) == Some(60 * DigitsValue(a))
  {
  }

  lemma HoursMinutesWords(a: string, b: string)
    requires Numeral(a) && Numeral(b) && DigitsValue(a) >= 1 && 1 <= DigitsValue(b) <= 59
    ensures ReadDurationWords([a, "h", b, "min"]) == Some(60 * DigitsValue(a) + DigitsValue(b))
  {
  }

  /** The label reads back as the rounded-up number of minutes. */
  lemma FormatDurationReadsBack(seconds: nat)
    ensures ReadDuration(FormatDuration(seconds)) == Some(CeilMinutes(seconds))
  {
    var mins := CeilMinutes(seconds);
    var text := FormatDuration(seconds);
    if mins < 60 {
      assert text == JoinWords([NatToString(mins), "min"]);
      ReadMinutesLabel(mins);
    } else if mins % 60 == 0 {
      assert text == JoinWords([NatToString(mins / 60), "h"]);
      ReadHoursLabel(mins / 60);
      assert 60 * (mins / 60) == mins;
    } else {
      assert text == JoinWords([NatToString(mins / 60), "h", NatToString(mins % 60), "min"]);
      ReadHoursMinutesLabel(mins / 60, mins % 60);
    }
  }

  /** A distance label as it reads: whole meters, or kilometers in tenths. */
  datatype Shown = Meters(meters: nat) | Kilometers(tenths: nat)

  /** Nearest tenth of a kilometer, halves rounded up. */
  function KmTenths(meters: nat): (t: nat)
    ensures 100 * t <= meters + 50 < 100 * t + 100
  {
    (meters + 50) / 100
  }

  /** A number of tenths written with one decimal: 123 is "12.3". */
  function Decimal(t: nat): (w: string)
    ensures |w| >= 3 && w[|w| - 2] == '.' && IsDigit(w[|w| - 1]) && DigitValue(w[|w| - 1]) == t % 10
    ensures w[..|w| - 2] == NatToString(t / 10)
    ensures IsWord(w)
  {
    var whole := NatToString(t / 10);
    var w := whole + "." + [DigitChar(t % 10)];
    assert w[..|w| - 2] == whole;
    assert forall i :: 0 <= i < |whole| ==> w[i] == whole[i];
    w
  }

  /** `_format_distance`: "<m> m" below a kilometer, else "<km> km" with the
      kilometers to one decimal (the two words joined by a space). */
  function FormatDistance(meters: nat): (r: string)
  {
    if meters < 1000 then JoinWords([NatToString(meters), "m"])
    else JoinWords([Decimal(KmTenths(meters)), "km"])
  }

  /** Reads a distance label back. */
  function ReadDistance(r: string): Option<Shown>
  {
    var ws := Words(r);
    if |ws| == 2 && AllDigits(ws[0]) && ws[1] == "m" then Some(Meters(DigitsValue(ws[0])))
    else if |ws| == 2 && ws[1] == "km" && |ws[0]| >= 3 && ws[0][|ws[0]| - 2] == '.'
         && AllDigits(ws[0][..|ws[0]| - 2]) && IsDigit(ws[0][|ws[0]| - 1]) then
      Some(Kilometers(10 * DigitsValue(ws[0][..|ws[0]| - 2]) + DigitValue(ws[0][|ws[0]| - 1])))
    else None
  }

  lemma ReadMetersLabel(meters: nat)
    ensures ReadDistance(JoinWords([NatToString(meters), "m"])) == Some(Meters(meters))
  {
    NumeralIsWord(meters);
    NatToStringRoundTrip(meters);
    WordsOfJoin([NatToString(meters), "m"]);
  }

  lemma ReadKilometersLabel(t: nat)
    ensures ReadDistance(JoinWords([Decimal(t), "km"])) == Some(Kilometers(t))
  {
    NumeralIsWord(t / 10);
    NatToStringRoundTrip(t / 10);
    WordsOfJoin([Decimal(t), "km"]);
  }

  /** The label reads back as the exact meters below a kilometer, and as the
      nearest tenth of a kilometer from there on. */
  lemma FormatDistanceReadsBack(meters: nat)
    ensures ReadDistance(FormatDistance(meters)).Some?
    ensures var d := ReadDistance(FormatDistance(meters)).value;
            && (d.Meters? <==> meters < 1000)
            && (d.Meters? ==> d.meters == meters)
            && (d.Kilometers? ==> 100 * d.tenths <= meters + 50 < 100 * d.tenths + 100)
  {
    if meters < 1000 {
      ReadMetersLabel(meters);
    } else {
      ReadKilometersLabel(KmTenths(meters));
    }
  }

  // ---------------------------------------------------------------------------
  // VROOM request
  // ---------------------------------------------------------------------------

  /** A position as the engines take it: `[lon, lat]`. */
  function LonLat(c: Coord): seq<int>
  {
    [c.lon, c.lat]
  }

  /** A vehicle of the request; it has a start and no end (an open trip). */
  datatype Vehicle = Vehicle(id: nat, start: seq<int>, capacity: Option<nat>)

  /** A job of the request: one stop, with its load when vehicles are balanced. */
  datatype Job = Job(id: nat, location: seq<int>, amount: Option<nat>)

  datatype Payload = Payload(vehicles: seq<Vehicle>, jobs: seq<Job>)

  /** `math.ceil(n / k)`. */
  function CeilDiv(n: nat, k: nat): (c: nat)
    requires k > 0
    ensures k * c >= n && k * c < n + k
  {
    (n + k - 1) / k
  }

  /** What the request for `coords` (origin first) with `k` vehicles is:
      vehicles 0..k-1 all start at the origin; with more than one vehicle each
      may carry at most the even share of the stops, rounded up, and every
      job weighs one; jobs 1..n are the other coordinates, in order. */
  ghost predicate PayloadFor(coords: seq<Coord>, k: nat, p: Payload)
    requires |coords| >= 1
  {
    var n := |coords| - 1;
    && |p.vehicles| == k
    && (forall v :: 0 <= v < k ==> p.vehicles[v].id == v && p.vehicles[v].start == LonLat(coords[0]))
    && (forall v :: 0 <= v < k ==> (p.vehicles[v].capacity.Some? <==> k > 1))
    && (forall v :: 0 <= v < k && p.vehicles[v].capacity.Some? ==>
          k * p.vehicles[v].capacity.value >= n && k * p.vehicles[v].capacity.value < n + k)
    && |p.jobs| == n
    && (forall i :: 0 <= i < n ==> p.jobs[i].id == i + 1 && p.jobs[i].location == LonLat(coords[i + 1]))
    && (forall i :: 0 <= i < n ==> p.jobs[i].amount == if k > 1 then Some(1) else None)
  }

  /** The request `optimize_route` sends, or None with fewer than two
      coordinates. */
  function BuildPayload(coords: seq<Coord>, k: nat): (p: Option<Payload>)
    ensures p.None? <==> |coords| < 2
    ensures p.Some? ==> PayloadFor(coords, k, p.value)
  {
    if |coords| < 2 then None
    else
      var n := |coords| - 1;
      var capacity := if k > 1 then Some(CeilDiv(n, k)) else None;
      var amount := if k > 1 then Some(1) else None;
      Some(Payload(
        seq(k, v requires 0 <= v < k => Vehicle(v, LonLat(coords[0]), capacity)),
        seq(n, i requires 0 <= i < n => Job(i + 1, LonLat(coords[i + 1]), amount))))
  }

  /** The even share rounded up is the only count that covers every job
      while leaving less than one job per vehicle spare. */
  lemma CeilDivUnique(n: nat, k: nat, c: nat)
    requires k > 0
    ensures k * c >= n && k * c < n + k <==> c == CeilDiv(n, k)
  {
    var e := CeilDiv(n, k);
    if c < e {
      Spread(k, c, e - c);
    } else if e < c {
      Spread(k, e, c - e);
    }
  }

  /** Adding at least one more unit per vehicle adds at least k. */
  lemma Spread(k: nat, a: nat, d: nat)
    requires d >= 1
    ensures k * (a + d) == k * a + k * d && k * d >= k
  {
  }

  /** With balanced vehicles every vehicle has the same capacity, the even
      share of the stops rounded up, and together they hold every job. */
  lemma CapacityBalanced(coords: seq<Coord>, k: nat, p: Payload, v: nat)
    requires |coords| >= 1 && PayloadFor(coords, k, p) && k > 1 && v < k
    ensures p.vehicles[v].capacity == Some(CeilDiv(|p.jobs|, k))
    ensures k * p.vehicles[v].capacity.value >= |p.jobs|
  {
    CeilDivUnique(|p.jobs|, k, p.vehicles[v].capacity.value);
  }

  // ---------------------------------------------------------------------------
  // VROOM answer
  // ---------------------------------------------------------------------------

  datatype VroomStep = VroomStep(kind: string, id: nat, distance: nat, duration: nat)
  datatype VroomRoute = VroomRoute(steps: seq<VroomStep>, distance: nat, duration: nat, vehicle: nat)
  datatype VroomReply = VroomReply(code: int, routes: seq<VroomRoute>)

  /** Arrival data of one stop: its job id and the running totals. */
  datatype StopDetail = StopDetail(originalIndex: nat, arrivalDistance: nat, arrivalDuration: nat)

  /** One route as read from the answer: the visiting order of the indices of
      `coords`, origin first, and the arrival data of the stops. */
  datatype RoutePlan = RoutePlan(waypointOrder: seq<nat>, stopDetails: seq<StopDetail>,
                                 totalDistance: nat, totalDuration: nat, vehicleId: nat)

  datatype Solution = Single(plan: RoutePlan) | Multi(plans: seq<RoutePlan>)

  /** The job steps of a route, in order; the other steps are ignored. */
  function JobSteps(steps: seq<VroomStep>): (js: seq<VroomStep>)
    ensures |js| <= |steps|
    ensures forall i :: 0 <= i < |js| ==> js[i].kind == "job"
  {
    if steps == [] then []
    else (if steps[0].kind == "job" then [steps[0]] else []) + JobSteps(steps[1..])
  }

  function SumDistance(js: seq<VroomStep>): nat
  {
    if js == [] then 0 else js[0].distance + SumDistance(js[1..])
  }

  function SumDuration(js: seq<VroomStep>): nat
  {
    if js == [] then 0 else js[0].duration + SumDuration(js[1..])
  }

  /** The loop over a route's steps: every job step adds its distance and
      duration to the running totals, which start at `dist` and `dur`. */
  function Walk(steps: seq<VroomStep>, dist: nat, dur: nat): (w: seq<StopDetail>)
  {
    if steps == [] then []
    else if steps[0].kind == "job" then
      var d := dist + steps[0].distance;
      var u := dur + steps[0].duration;
      [StopDetail(steps[0].id, d, u)] + Walk(steps[1..], d, u)
    else Walk(steps[1..], dist, dur)
  }

  /** Sums over a prefix of a sequence with one more step at its head. */
  lemma PrefixSumsCons(h: VroomStep, rest: seq<VroomStep>, i: nat)
    requires i <= |rest|
    ensures SumDistance(([h] + rest)[..i + 1]) == h.distance + SumDistance(rest[..i])
    ensures SumDuration(([h] + rest)[..i + 1]) == h.duration + SumDuration(rest[..i])
  {
    var p := ([h] + rest)[..i + 1];
    assert p[0] == h && p[1..] == rest[..i];
  }

  /** The loop against the reference: one entry per job step, with that
      step's id and the sums over the job steps up to and including it. */
  lemma {:induction false} WalkSpec(steps: seq<VroomStep>, dist: nat, dur: nat)
    ensures var w := Walk(steps, dist, dur);
            var js := JobSteps(steps);
            && |w| == |js|
            && forall i :: 0 <= i < |w| ==>
                 && w[i].originalIndex == js[i].id
                 && w[i].arrivalDistance == dist + SumDistance(js[..i + 1])
                 && w[i].arrivalDuration == dur + SumDuration(js[..i + 1])
  {
    if steps != [] {
      var h := steps[0];
      if h.kind == "job" {
        var d := dist + h.distance;
        var u := dur + h.duration;
        WalkSpec(steps[1..], d, u);
        var rest := JobSteps(steps[1..]);
        var tail := Walk(steps[1..], d, u);
        var w := Walk(steps, dist, dur);
        assert JobSteps(steps) == [h] + rest;
        assert w == [StopDetail(h.id, d, u)] + tail;
        forall i | 0 <= i < |w|
          ensures w[i].originalIndex == ([h] + rest)[i].id
          ensures w[i].arrivalDistance == dist + SumDistance(([h] + rest)[..i + 1])
          ensures w[i].arrivalDuration == dur + SumDuration(([h] + rest)[..i + 1])
        {
          PrefixSumsCons(h, rest, i);
          if i > 0 {
            assert w[i] == tail[i - 1];
            PrefixSumsCons(h, rest, i - 1);
            assert rest[..i] == rest[..i - 1 + 1];
          }
        }
      } else {
        WalkSpec(steps[1..], dist, dur);
        assert JobSteps(steps) == JobSteps(steps[1..]);
      }
    }
  }

  /** Arrival distances that start at `dist` or above and never decrease. */
  ghost predicate Climbs(w: seq<StopDetail>, dist: nat)
  {
    && (forall i :: 0 <= i < |w| ==> dist <= w[i].arrivalDistance)
    && (forall i, j :: 0 <= i <= j < |w| ==> w[i].arrivalDistance <= w[j].arrivalDistance)
  }

  /** The running distance never decreases along the route, and never falls
      below its starting value. */
  lemma {:induction false} WalkNonDecreasing(steps: seq<VroomStep>, dist: nat, dur: nat)
    ensures Climbs(Walk(steps, dist, dur), dist)
  {
    if steps != [] {
      if steps[0].kind == "job" {
        var d := dist + steps[0].distance;
        var u := dur + steps[0].duration;
        WalkNonDecreasing(steps[1..], d, u);
        var rest := Walk(steps[1..], d, u);
        var w := Walk(steps, dist, dur);
        assert w == [StopDetail(steps[0].id, d, u)] + rest;
        assert forall i :: 0 < i < |w| ==> w[i] == rest[i - 1];
      } else {
        WalkNonDecreasing(steps[1..], dist, dur);
        assert Walk(steps, dist, dur) == Walk(steps[1..], dist, dur);
      }
    }
  }

  /** The ids of the stop details, in order. */
  function Ids(w: seq<StopDetail>): (ids: seq<nat>)
    ensures |ids| == |w| && forall i :: 0 <= i < |w| ==> ids[i] == w[i].originalIndex
  {
    seq(|w|, i requires 0 <= i < |w| => w[i].originalIndex)
  }

  /** One route of the answer: the origin, then the job ids in the order of
      the steps, and the running totals from zero. */
  function ReadRoute(route: VroomRoute): (plan: RoutePlan)
    ensures |plan.waypointOrder| == |plan.stopDetails| + 1 && plan.waypointOrder[0] == 0
  {
    var details := Walk(route.steps, 0, 0);
    RoutePlan([0] + Ids(details), details, route.distance, route.duration, route.vehicle)
  }

  /** The visiting order of a route is the origin followed by the ids of its
      job steps; the arrival distance of the i-th stop is the sum of the
      distances of the job steps up to it, and never decreases. */
  lemma ReadRouteSpec(route: VroomRoute)
    ensures var plan := ReadRoute(route);
            var js := JobSteps(route.steps);
            && |plan.waypointOrder| == |js| + 1
            && (forall i :: 0 <= i < |js| ==> plan.waypointOrder[i + 1] == js[i].id)
            && (forall i :: 0 <= i < |js| ==> plan.stopDetails[i].arrivalDistance == SumDistance(js[..i + 1]))
            && (forall i, j :: 0 <= i <= j < |js| ==>
                  plan.stopDetails[i].arrivalDistance <= plan.stopDetails[j].arrivalDistance)
  {
    WalkSpec(route.steps, 0, 0);
    WalkNonDecreasing(route.steps, 0, 0);
  }

  /** The answer of the solver: None for a failed call or a non-zero code;
      with several vehicles one plan per returned route; with one vehicle the
      first route, or None when there is none. */
  function ReadReply(reply: Option<VroomReply>, k: nat): (s: Option<Solution>)
    ensures reply.None? || reply.value.code != 0 ==> s.None?
    ensures s.Some? ==> (s.value.Multi? <==> k > 1)
    ensures s.Some? && s.value.Multi? ==>
              (|s.value.plans| == |reply.value.routes|
               && forall r :: 0 <= r < |s.value.plans| ==> s.value.plans[r] == ReadRoute(reply.value.routes[r]))
    ensures s.Some? && s.value.Single? ==> reply.value.routes != [] && s.value.plan == ReadRoute(reply.value.routes[0])
    ensures reply.Some? && reply.value.code == 0 && (k > 1 || reply.value.routes != []) ==> s.Some?
  {
    if reply.None? || reply.value.code != 0 then None
    else if k > 1 then
      var routes := reply.value.routes;
      Some(Multi(seq(|routes|, r requires 0 <= r < |routes| => ReadRoute(routes[r]))))
    else if reply.value.routes == [] then None
    else Some(Single(ReadRoute(reply.value.routes[0])))
  }

  /** `optimize_route`: build the request, ask the solver, read the answer. */
  function OptimizeRoute(coords: seq<Coord>, k: nat, solver: Payload -> Option<VroomReply>): (s: Option<Solution>)
    ensures |coords| < 2 ==> s.None?
    ensures |coords| >= 2 ==> s == ReadReply(solver(BuildPayload(coords, k).value), k)
  {
    match BuildPayload(coords, k)
    case None => None
    case Some(p) => ReadReply(solver(p), k)
  }

  // ---------------------------------------------------------------------------
  // OSRM route details
  // ---------------------------------------------------------------------------

  /** A maneuver; `location` is the `[lon, lat]` list, empty when absent. */
  datatype Maneuver = Maneuver(kind: string, modifier: string, location: seq<int>)
  datatype OsrmStep = OsrmStep(maneuver: Maneuver, name: string, distance: nat)
  datatype Leg = Leg(steps: seq<OsrmStep>)
  datatype OsrmRoute = OsrmRoute(legs: seq<Leg>, distance: nat, duration: nat)
  datatype OsrmReply = OsrmReply(code: string, routes: seq<OsrmRoute>)

  /** One navigation step of the answer. */
  datatype Instruction = Instruction(text: string, distanceM: nat, location: Option<Coord>)

  datatype RouteDetails = RouteDetails(steps: seq<Instruction>, totalDistance: nat, totalDuration: nat)

  /** A step is reported when it covers some distance or is the arrival. */
  predicate Reported(s: OsrmStep)
  {
    s.distance > 0 || s.maneuver.kind == "arrive"
  }

  /** The instruction for one step: its Spanish text, its distance and, when
      the maneuver has at least two numbers, its position (`[lon, lat]`
      swapped into latitude and longitude). */
  function Instruct(s: OsrmStep): (i: Instruction)
    ensures i.text == StepText(s.maneuver.kind, s.maneuver.modifier, s.name)
    ensures i.text != [] && i.distanceM == s.distance
    ensures i.location.Some? <==> |s.maneuver.location| >= 2
    ensures i.location.Some? ==> i.location.value == Coord(s.maneuver.location[1], s.maneuver.location[0])
  {
    var loc := s.maneuver.location;
    Instruction(StepText(s.maneuver.kind, s.maneuver.modifier, s.name), s.distance,
                if |loc| >= 2 then Some(Coord(loc[1], loc[0])) else None)
  }

  /** The inner loop over the steps of one leg. */
  function LegInstructions(steps: seq<OsrmStep>): seq<Instruction>
  {
    if steps == [] then []
    else (if Reported(steps[0]) then [Instruct(steps[0])] else []) + LegInstructions(steps[1..])
  }

  /** The outer loop over the legs. */
  function RouteInstructions(legs: seq<Leg>): seq<Instruction>
  {
    if legs == [] then [] else LegInstructions(legs[0].steps) + RouteInstructions(legs[1..])
  }

  /** Reference: the steps of all legs, one after the other. */
  function AllSteps(legs: seq<Leg>): seq<OsrmStep>
  {
    if legs == [] then [] else legs[0].steps + AllSteps(legs[1..])
  }

  /** Reference: the reported steps, in order. */
  function ReportedSteps(steps: seq<OsrmStep>): (r: seq<OsrmStep>)
    ensures forall i :: 0 <= i < |r| ==> Reported(r[i])
  {
    if steps == [] then []
    else (if Reported(steps[0]) then [steps[0]] else []) + ReportedSteps(steps[1..])
  }

  function InstructAll(steps: seq<OsrmStep>): (r: seq<Instruction>)
    ensures |r| == |steps| && forall i :: 0 <= i < |steps| ==> r[i] == Instruct(steps[i])
  {
    seq(|steps|, i requires 0 <= i < |steps| => Instruct(steps[i]))
  }

  lemma {:induction false} ReportedAppend(a: seq<OsrmStep>, b: seq<OsrmStep>)
    ensures ReportedSteps(a + b) == ReportedSteps(a) + ReportedSteps(b)
  {
    if a != [] {
      assert (a + b)[1..] == a[1..] + b;
      ReportedAppend(a[1..], b);
    } else {
      assert a + b == b;
    }
  }

  lemma InstructAllAppend(a: seq<OsrmStep>, b: seq<OsrmStep>)
    ensures InstructAll(a + b) == InstructAll(a) + InstructAll(b)
  {
  }

  lemma {:induction false} LegInstructionsSpec(steps: seq<OsrmStep>)
    ensures LegInstructions(steps) == InstructAll(ReportedSteps(steps))
  {
    if steps != [] {
      LegInstructionsSpec(steps[1..]);
      var head := if Reported(steps[0]) then [steps[0]] else [];
      assert ReportedSteps(steps) == head + ReportedSteps(steps[1..]);
      InstructAllAppend(head, ReportedSteps(steps[1..]));
      assert InstructAll(head) == if Reported(steps[0]) then [Instruct(steps[0])] else [];
    }
  }

  /** The reported steps are exactly the steps of all legs that cover some
      distance or arrive, in their original order, each turned into its
      instruction. */
  lemma {:induction false} RouteInstructionsSpec(legs: seq<Leg>)
    ensures RouteInstructions(legs) == InstructAll(ReportedSteps(AllSteps(legs)))
  {
    if legs != [] {
      RouteInstructionsSpec(legs[1..]);
      LegInstructionsSpec(legs[0].steps);
      ReportedAppend(legs[0].steps, AllSteps(legs[1..]));
      InstructAllAppend(ReportedSteps(legs[0].steps), ReportedSteps(AllSteps(legs[1..])));
    }
  }

  /** `get_route_details`: None with fewer than two coordinates, a failed
      call, a code other than "Ok" or no route; otherwise the reported steps
      of the first route and its totals. */
  function GetRouteDetails(coords: seq<Coord>, engine: seq<Coord> -> Option<OsrmReply>): (d: Option<RouteDetails>)
    ensures |coords| < 2 ==> d.None?
    ensures d.Some? <==> |coords| >= 2 && engine(coords).Some? && engine(coords).value.code == "Ok"
                          && engine(coords).value.routes != []
    ensures d.Some? ==> var route := engine(coords).value.routes[0];
                        d.value.steps == InstructAll(ReportedSteps(AllSteps(route.legs)))
                        && d.value.totalDistance == route.distance && d.value.totalDuration == route.duration
  {
    if |coords| < 2 then None
    else match engine(coords)
      case None => None
      case Some(reply) =>
        if reply.code != "Ok" || reply.routes == [] then None
        else
          var route := reply.routes[0];
          RouteInstructionsSpec(route.legs);
          Some(RouteDetails(RouteInstructions(route.legs), route.distance, route.duration))
  }
}
