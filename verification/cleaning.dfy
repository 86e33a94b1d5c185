/** Address cleaning for the geocoder: the blank-input guard and town
    suffixes of `clean_address`, and the three anchored regular-expression
    cuts of `_extract_street_only`, on which `_simplify_for_search` and the
    house-number lookup of the structured query rest. */
module Cleaning {
  import opened Common
  import opened Text

  // ---------------------------------------------------------------------------
  // `clean_address`
  // ---------------------------------------------------------------------------

  const PosadasSuffix: string := ", Posadas"
  const ProvinceSuffix: string := ", Córdoba, España"

  /** The town name is present, in any case. */
  predicate MentionsPosadas(s: string)
  {
    Contains(Lower(s), "posadas")
  }

  /** The province name is present, with or without its accent, in any case. */
  predicate MentionsCordoba(s: string)
  {
    Contains(Lower(s), "córdoba") || Contains(Lower(s), "cordoba")
  }

  lemma MentionsAppend(s: string, t: string)
    ensures MentionsPosadas(s) ==> MentionsPosadas(s + t)
    ensures MentionsCordoba(s) ==> MentionsCordoba(s + t)
    ensures MentionsPosadas(t) ==> MentionsPosadas(s + t)
    ensures MentionsCordoba(t) ==> MentionsCordoba(s + t)
  {
    LowerAppend(s, t);
    var ls, lt := Lower(s), Lower(t);
    if Contains(ls, "posadas") { ContainsLeft(ls, lt, "posadas"); }
    if Contains(ls, "córdoba") { ContainsLeft(ls, lt, "córdoba"); }
    if Contains(ls, "cordoba") { ContainsLeft(ls, lt, "cordoba"); }
    if Contains(lt, "posadas") { ContainsRight(ls, lt, "posadas"); }
    if Contains(lt, "córdoba") { ContainsRight(ls, lt, "córdoba"); }
    if Contains(lt, "cordoba") { ContainsRight(ls, lt, "cordoba"); }
  }

  lemma SuffixesMention()
    ensures MentionsPosadas(PosadasSuffix)
    ensures MentionsCordoba(ProvinceSuffix)
    ensures !MentionsCordoba(PosadasSuffix)
  {
    PosadasSuffixMentions();
    ProvinceSuffixMentions();
  }

  lemma ProvinceSuffixMentions()
    ensures MentionsCordoba(ProvinceSuffix)
  {
    assert Lower(ProvinceSuffix) == ", córdoba, españa";
    assert OccursAt(Lower(ProvinceSuffix), "córdoba", 2);
  }

  lemma PosadasSuffixMentions()
    ensures MentionsPosadas(PosadasSuffix) && !MentionsCordoba(PosadasSuffix)
  {
    var l := Lower(PosadasSuffix);
    assert l == ", posadas";
    assert OccursAt(l, "posadas", 2);
    forall i | 0 <= i <= |l| - 7
      ensures !OccursAt(l, "córdoba", i) && !OccursAt(l, "cordoba", i)
    {
      assert l[i + 6] != 'a' || l[i] != 'c';
    }
  }

  /** The province suffix does not name the town, and nothing names neither. */
  lemma SuffixesMentionOnlyTheirOwn()
    ensures !MentionsPosadas(ProvinceSuffix)
    ensures !MentionsPosadas("") && !MentionsCordoba("")
  {
    var l := Lower(ProvinceSuffix);
    assert l[..11] == ", córdoba, ";
    assert 'p' !in l[..11];
    forall i | 0 <= i <= |l| - 7
      ensures !OccursAt(l, "posadas", i)
    {
      assert l[i] == l[..11][i];
    }
    assert Lower("") == "";
  }

  /** Step 14 of `clean_address`: append ", Posadas" when the town is not
      named and ", Córdoba, España" when the province is not named. The text
      is kept as a prefix, both names are present afterwards, and the text is
      left alone exactly when it named both already. */
  function AddTownSuffixes(s: string): (r: string)
    ensures StartsWith(r, s)
    ensures MentionsPosadas(r) && MentionsCordoba(r)
    ensures r == s <==> MentionsPosadas(s) && MentionsCordoba(s)
  {
    var s1 := if MentionsPosadas(s) then s else s + PosadasSuffix;
    var r := if MentionsCordoba(s) then s1 else s1 + ProvinceSuffix;
    SuffixesMention();
    MentionsAppend(s, PosadasSuffix);
    MentionsAppend(s1, ProvinceSuffix);
    assert |r| == |s| ==> r == s;
    r
  }

  /** The suffixes are added at most once: a cleaned address already names
      both, so a second pass changes nothing. */
  lemma AddTownSuffixesIdempotent(s: string)
    ensures AddTownSuffixes(AddTownSuffixes(s)) == AddTownSuffixes(s)
  {
  }

  /** Exactly the missing names are appended, each once, in the order town,
      province: what follows the text names the town exactly when the text
      did not, names the province exactly when the text did not, and is
      one of the two suffixes or both, the town first. */
  lemma AddTownSuffixesAppendsMissing(s: string)
    ensures var added := AddTownSuffixes(s)[|s|..];
            && (MentionsPosadas(added) <==> !MentionsPosadas(s))
            && (MentionsCordoba(added) <==> !MentionsCordoba(s))
            && added in {"", PosadasSuffix, ProvinceSuffix, PosadasSuffix + ProvinceSuffix}
  {
    var r := AddTownSuffixes(s);
    var added := r[|s|..];
    assert r == s + added;
    SuffixesMention();
    SuffixesMentionOnlyTheirOwn();
    MentionsAppend(PosadasSuffix, ProvinceSuffix);
    if !MentionsPosadas(s) && !MentionsCordoba(s) {
      assert added == PosadasSuffix + ProvinceSuffix;
    }
  }

  /** `clean_address(raw)`. The abbreviation, encoding, noise and floor/door
      rewrites of steps 1 to 13 are the uninterpreted `rewrite`, applied to
      the stripped input and followed by the final strip. Blank input gives
      the empty string; any other input gives a non-empty text that names
      the town and the province and begins with the rewritten text. */
  function CleanAddress(raw: string, rewrite: string -> string): (r: string)
    ensures Strip(raw) == [] <==> r == []
    ensures r != [] ==> MentionsPosadas(r) && MentionsCordoba(r)
    ensures r != [] ==> StartsWith(r, Strip(rewrite(Strip(raw))))
  {
    var s := Strip(raw);
    if s == [] then s
    else
      AddTownSuffixes(Strip(rewrite(s)))
  }

  // ---------------------------------------------------------------------------
  // Anchored matching
  // ---------------------------------------------------------------------------

  /** End of the run of whitespace that starts at index `i` of `t`. */
  function SpacesEnd(t: string, i: nat): (n: nat)
    requires i <= |t|
    ensures i <= n <= |t|
    ensures forall k :: i <= k < n ==> IsSpace(t[k])
    ensures n < |t| ==> !IsSpace(t[n])
    decreases |t| - i
  {
    if i < |t| && IsSpace(t[i]) then SpacesEnd(t, i + 1) else i
  }

  /** End of the run of ASCII digits that starts at index `i` of `t`. */
  function DigitsEnd(t: string, i: nat): (n: nat)
    requires i <= |t|
    ensures i <= n <= |t|
    ensures forall k :: i <= k < n ==> IsDigit(t[k])
    ensures n < |t| ==> !IsDigit(t[n])
    decreases |t| - i
  {
    if i < |t| && IsDigit(t[i]) then DigitsEnd(t, i + 1) else i
  }

  /** Everything from index `i` on is whitespace. */
  predicate SpacesFrom(t: string, i: nat)
  {
    forall k :: i <= k < |t| ==> IsSpace(t[k])
  }

  /** The leftmost position from which `matches` accepts the rest of `s`.
      A `$`-anchored pattern handed to `re.sub` or `re.search` is found this
      way: the engine tries each start from the left and backtracks until the
      pattern reaches the end. */
  function FirstMatch(s: string, matches: string -> bool): (i: Option<nat>)
    ensures i.Some? ==> i.value <= |s| && matches(s[i.value..])
    ensures forall j :: 0 <= j <= |s| && (i.None? || j < i.value) ==> !matches(s[j..])
  {
    FirstMatchFrom(s, matches, 0)
  }

  function FirstMatchFrom(s: string, matches: string -> bool, k: nat): (i: Option<nat>)
    requires k <= |s|
    requires forall j :: 0 <= j < k ==> !matches(s[j..])
    ensures i.Some? ==> k <= i.value <= |s| && matches(s[i.value..])
    ensures forall j :: 0 <= j <= |s| && (i.None? || j < i.value) ==> !matches(s[j..])
    decreases |s| - k
  {
    if matches(s[k..]) then Some(k)
    else if k == |s| then None
    else FirstMatchFrom(s, matches, k + 1)
  }

  /** The leftmost match is the only position that matches with no match
      before it. */
  lemma FirstMatchAt(s: string, matches: string -> bool, i: nat)
    requires i <= |s| && matches(s[i..])
    requires forall j :: 0 <= j < i ==> !matches(s[j..])
    ensures FirstMatch(s, matches) == Some(i)
  {
  }

  lemma FirstMatchNone(s: string, matches: string -> bool)
    requires forall j :: 0 <= j <= |s| ==> !matches(s[j..])
    ensures FirstMatch(s, matches) == None
  {
  }

  /** `re.sub(pattern, '', s)` for a pattern whose matches run to the end:
      everything from the leftmost match on is removed. */
  function CutFrom(s: string, matches: string -> bool): (r: string)
    ensures FirstMatch(s, matches).None? ==> r == s
    ensures FirstMatch(s, matches).Some? ==> r == s[..FirstMatch(s, matches).value]
  {
    match FirstMatch(s, matches)
    case None => s
    case Some(i) => s[..i]
  }

  // ---------------------------------------------------------------------------
  // `,\s*Posadas.*$` (ignoring case)
  // ---------------------------------------------------------------------------

  /** `.*$` can reach the end: no line break except, possibly, the last
      character, before which `$` also matches. */
  predicate SingleLine(v: string)
  {
    forall k :: 0 <= k < |v| - 1 ==> v[k] != '\n'
  }

  /** The text from a comma: the comma, optional whitespace, the town name in
      any case, and the rest of the line. */
  predicate PosadasTail(t: string)
  {
    && |t| >= 1 && t[0] == ','
    && var n := SpacesEnd(t, 1);
       && n + 7 <= |t|
       && Lower(t[n..n + 7]) == "posadas"
       && SingleLine(t[n + 7..])
  }

  /** The pattern read as a shape: a comma at 0, whitespace up to `n`, the
      town name in any case at `n`, and one line to the end. */
  predicate PosadasShape(t: string, n: nat)
  {
    && 1 <= n && n + 7 <= |t| && t[0] == ','
    && (forall k :: 1 <= k < n ==> IsSpace(t[k]))
    && Lower(t[n..n + 7]) == "posadas"
    && SingleLine(t[n + 7..])
  }

  /** The matcher accepts exactly the texts of that shape. */
  lemma PosadasTailIff(t: string)
    ensures PosadasTail(t) <==> exists n :: PosadasShape(t, n)
  {
    if PosadasTail(t) {
      assert PosadasShape(t, SpacesEnd(t, 1));
    }
    if n: nat :| PosadasShape(t, n) {
      assert LowerChar(t[n]) == Lower(t[n..n + 7])[0] == 'p';
      assert SpacesEnd(t, 1) == n;
    }
  }

  /** `re.sub(r',\s*Posadas.*$', '', s, flags=re.IGNORECASE)`. When the text
      ends with a line break, `.*` stops before it and `$` matches there, so
      the break survives the cut. */
  function CutPosadas(s: string): (r: string)
    ensures FirstMatch(s, PosadasTail).None? ==> r == s
    ensures FirstMatch(s, PosadasTail).Some? ==>
              var i := FirstMatch(s, PosadasTail).value;
              r == s[..i] + (if s[|s| - 1] == '\n' then "\n" else "")
  {
    match FirstMatch(s, PosadasTail)
    case None => s
    case Some(i) =>
      assert PosadasTail(s[i..]);
      s[..i] + (if s[|s| - 1] == '\n' then "\n" else "")
  }

  // ---------------------------------------------------------------------------
  // `\s+(\d+[-/]?\d*)\s*[A-Za-z]?\s*$`
  // ---------------------------------------------------------------------------

  /** `\s*[A-Za-z]?\s*` from index `i` to the end. */
  predicate LetterTailAt(t: string, i: nat)
    requires i <= |t|
  {
    var c := SpacesEnd(t, i);
    SpacesFrom(t, c) || (IsAsciiLetter(t[c]) && SpacesFrom(t, c + 1))
  }

  /** Parses the house-number pattern against all of `t` and returns the
      captured number (`\d+[-/]?\d*`). Every quantifier is forced: `\s+`
      must take all the leading whitespace because a digit follows, `\d+`
      all the digits because a separator, space or letter follows, and so on,
      so one left-to-right pass decides the match. */
  function NumberTail(t: string): Option<string>
  {
    var a := SpacesEnd(t, 0);
    var e1 := DigitsEnd(t, a);
    if a == 0 || e1 == a then None
    else
      var b := if e1 < |t| && (t[e1] == '-' || t[e1] == '/') then e1 + 1 else e1;
      var e2 := DigitsEnd(t, b);
      if LetterTailAt(t, e2) then Some(t[a..e2]) else None
  }

  predicate HasNumberTail(t: string)
  {
    NumberTail(t).Some?
  }

  /** The pattern read as a shape, with its pieces between the cut points
      `i1` .. `i6`: whitespace (at least one), digits (at least one), an
      optional '-' or '/', digits, whitespace, an optional ASCII letter,
      whitespace. The captured number is `t[i1..i4]`. */
  predicate NumberShape(t: string, i1: nat, i2: nat, i3: nat, i4: nat, i5: nat, i6: nat)
  {
    && 0 < i1 < i2 <= i3 <= i4 <= i5 <= i6 <= |t|
    && (forall k :: 0 <= k < i1 ==> IsSpace(t[k]))
    && (forall k :: i1 <= k < i2 ==> IsDigit(t[k]))
    && (i3 == i2 || (i3 == i2 + 1 && (t[i2] == '-' || t[i2] == '/')))
    && (forall k :: i3 <= k < i4 ==> IsDigit(t[k]))
    && (forall k :: i4 <= k < i5 ==> IsSpace(t[k]))
    && (i6 == i5 || (i6 == i5 + 1 && IsAsciiLetter(t[i5])))
    && SpacesFrom(t, i6)
  }

  lemma LetterTailOfShape(t: string, i4: nat, i5: nat, i6: nat)
    requires i4 <= i5 <= i6 <= |t|
    requires forall k :: i4 <= k < i5 ==> IsSpace(t[k])
    requires i6 == i5 || (i6 == i5 + 1 && IsAsciiLetter(t[i5]))
    requires SpacesFrom(t, i6)
    ensures LetterTailAt(t, i4)
    ensures i4 < |t| ==> !IsDigit(t[i4]) && t[i4] != '-' && t[i4] != '/'
  {
    var c := SpacesEnd(t, i4);
    if i6 == i5 + 1 {
      assert c == i5;
    }
  }

  /** Every text of the shape is matched, and the captured number is the
      digits-separator-digits piece. */
  lemma NumberTailComplete(t: string, i1: nat, i2: nat, i3: nat, i4: nat, i5: nat, i6: nat)
    requires NumberShape(t, i1, i2, i3, i4, i5, i6)
    ensures NumberTail(t) == Some(t[i1..i4])
  {
    LetterTailOfShape(t, i4, i5, i6);
    assert SpacesEnd(t, 0) == i1 by {
      assert IsDigit(t[i1]);
      SpacesEndOfRun(t, 0, i1);
    }
    if i3 == i2 {
      assert DigitsEnd(t, i1) == i4 by {
        DigitsEndOfRun(t, i1, i4);
      }
    } else {
      assert DigitsEnd(t, i1) == i2 by {
        DigitsEndOfRun(t, i1, i2);
      }
      assert DigitsEnd(t, i3) == i4 by {
        DigitsEndOfRun(t, i3, i4);
      }
    }
  }

  /** `SpacesEnd` stops at the first non-space. */
  lemma SpacesEndOfRun(t: string, i: nat, j: nat)
    requires i <= j <= |t|
    requires forall k :: i <= k < j ==> IsSpace(t[k])
    requires j == |t| || !IsSpace(t[j])
    ensures SpacesEnd(t, i) == j
  {
  }

  /** `DigitsEnd` stops at the first non-digit. */
  lemma DigitsEndOfRun(t: string, i: nat, j: nat)
    requires i <= j <= |t|
    requires forall k :: i <= k < j ==> IsDigit(t[k])
    requires j == |t| || !IsDigit(t[j])
    ensures DigitsEnd(t, i) == j
  {
  }

  /** Whatever the parser accepts has the shape, and the captured number is
      its digits-separator-digits piece. */
  lemma NumberTailSound(t: string) returns (i1: nat, i2: nat, i3: nat, i4: nat, i5: nat, i6: nat)
    requires HasNumberTail(t)
    ensures NumberShape(t, i1, i2, i3, i4, i5, i6)
    ensures NumberTail(t) == Some(t[i1..i4])
  {
    i1 := SpacesEnd(t, 0);
    i2 := DigitsEnd(t, i1);
    i3 := if i2 < |t| && (t[i2] == '-' || t[i2] == '/') then i2 + 1 else i2;
    i4 := DigitsEnd(t, i3);
    i5 := SpacesEnd(t, i4);
    i6 := if SpacesFrom(t, i5) then i5 else i5 + 1;
  }

  /** `re.sub(r'\s+\d+[-/]?\d*\s*[A-Za-z]?\s*$', '', s)`. */
  function CutNumber(s: string): (r: string)
    ensures FirstMatch(s, HasNumberTail).None? ==> r == s
    ensures FirstMatch(s, HasNumberTail).Some? ==> r == s[..FirstMatch(s, HasNumberTail).value]
  {
    CutFrom(s, HasNumberTail)
  }

  // ---------------------------------------------------------------------------
  // `\s+s/n\s*$` (ignoring case)
  // ---------------------------------------------------------------------------

  /** Whitespace, "s/n" in any case ("sin número"), whitespace to the end. */
  predicate SinNumeroTail(t: string)
  {
    var a := SpacesEnd(t, 0);
    && a > 0 && a + 3 <= |t|
    && LowerChar(t[a]) == 's' && t[a + 1] == '/' && LowerChar(t[a + 2]) == 'n'
    && SpacesFrom(t, a + 3)
  }

  /** The pattern read as a shape: whitespace up to `i1` (at least one), then
      's' or 'S', '/', 'n' or 'N', then whitespace to the end. */
  predicate SinNumeroShape(t: string, i1: nat)
  {
    && 0 < i1 && i1 + 3 <= |t|
    && (forall k :: 0 <= k < i1 ==> IsSpace(t[k]))
    && (t[i1] == 's' || t[i1] == 'S') && t[i1 + 1] == '/' && (t[i1 + 2] == 'n' || t[i1 + 2] == 'N')
    && SpacesFrom(t, i1 + 3)
  }

  lemma LowerCharLetters(c: char)
    ensures LowerChar(c) == 's' <==> c == 's' || c == 'S'
    ensures LowerChar(c) == 'n' <==> c == 'n' || c == 'N'
    ensures LowerChar(c) == 'p' <==> c == 'p' || c == 'P'
  {
  }

  /** The matcher accepts exactly the texts of that shape. */
  lemma SinNumeroTailIff(t: string)
    ensures SinNumeroTail(t) <==> exists i1 :: SinNumeroShape(t, i1)
  {
    var a := SpacesEnd(t, 0);
    if SinNumeroTail(t) {
      LowerCharLetters(t[a]);
      LowerCharLetters(t[a + 2]);
      assert SinNumeroShape(t, a);
    }
    if i1 :| SinNumeroShape(t, i1) {
      assert a == i1;
    }
  }

  /** `re.sub(r'\s+s/n\s*$', '', s, flags=re.IGNORECASE)`. */
  function CutSinNumero(s: string): (r: string)
    ensures FirstMatch(s, SinNumeroTail).None? ==> r == s
    ensures FirstMatch(s, SinNumeroTail).Some? ==> r == s[..FirstMatch(s, SinNumeroTail).value]
  {
    CutFrom(s, SinNumeroTail)
  }

  // ---------------------------------------------------------------------------
  // `_extract_street_only`, `_simplify_for_search`, the structured street
  // ---------------------------------------------------------------------------

  /** `_extract_street_only`: drop ", Posadas…", then a trailing house number,
      then a trailing "s/n", and strip. */
  function ExtractStreetOnly(cleaned: string): (street: string)
    ensures Stripped(street)
  {
    Strip(CutSinNumero(CutNumber(CutPosadas(cleaned))))
  }

  const TownAndProvince: string := ", Posadas, Córdoba, España"

  /** `_simplify_for_search`: the bare street with the town and province, or
      the input itself when no street is left. */
  function SimplifyForSearch(cleaned: string): (r: string)
    ensures ExtractStreetOnly(cleaned) != [] ==> r == ExtractStreetOnly(cleaned) + TownAndProvince
    ensures ExtractStreetOnly(cleaned) == [] ==> r == cleaned
  {
    var street := ExtractStreetOnly(cleaned);
    if street != [] then street + TownAndProvince else cleaned
  }

  /** The street for the structured query of strategy 2: the bare street,
      followed by the house number that `re.search` finds in the text before
      ", Posadas", when there is one. */
  function StreetWithNumber(cleaned: string): (r: string)
    ensures StartsWith(r, ExtractStreetOnly(cleaned))
  {
    var street := ExtractStreetOnly(cleaned);
    var before := CutPosadas(cleaned);
    match FirstMatch(before, HasNumberTail)
    case None => street
    case Some(i) =>
      var num := NumberTail(before[i..]).value;
      StartsWithAppend(street, " " + num);
      street + (" " + num)
  }

  // ---------------------------------------------------------------------------
  // The usual shape of a cleaned address
  // ---------------------------------------------------------------------------

  /** A street name as it appears before the number: words without digits,
      commas, slashes or line breaks, and no surrounding whitespace. */
  predicate PlainStreet(street: string)
  {
    && street != [] && Stripped(street)
    && forall k :: 0 <= k < |street| ==> !IsDigit(street[k]) && street[k] != ',' && street[k] != '/' && street[k] != '\n'
  }

  lemma NoPosadasInStreet(street: string, rest: string)
    requires PlainStreet(street)
    ensures forall j :: 0 <= j < |street| ==> !PosadasTail((street + rest)[j..])
  {
    forall j | 0 <= j < |street|
      ensures !PosadasTail((street + rest)[j..])
    {
      assert (street + rest)[j..][0] == street[j];
    }
  }

  lemma LowerTownName()
    ensures Lower("Posadas") == "posadas"
  {
    assert LowerChar('P') == 'p';
  }

  lemma PosadasTailOfTown()
    ensures PosadasTail(TownAndProvince)
  {
    var t := TownAndProvince;
    assert t == PosadasSuffix + ProvinceSuffix;
    assert t[2..9] == "Posadas" by {
      assert t[..9] == PosadasSuffix;
      assert PosadasSuffix[2..] == "Posadas";
    }
    assert SpacesEnd(t, 1) == 2 by {
      assert t[1] == ' ' && t[2] == 'P';
      assert SpacesEnd(t, 2) == 2;
    }
    assert Lower(t[2..9]) == "posadas" by {
      LowerTownName();
    }
    assert SingleLine(t[9..]) by {
      assert t[9..] == ProvinceSuffix;
    }
  }

  lemma NoNumberInStreet(street: string, num: string)
    requires PlainStreet(street) && AllDigits(num)
    ensures forall j :: 0 <= j < |street| ==> !HasNumberTail((street + " " + num)[j..])
  {
    var s := street + " " + num;
    forall j | 0 <= j < |street|
      ensures !HasNumberTail(s[j..])
    {
      var t := s[j..];
      var a := SpacesEnd(t, 0);
      // the run of spaces stops inside the street, whose last character is not a space
      assert t[|street| - 1 - j] == street[|street| - 1];
      assert t[a] == street[j + a];
    }
  }

  lemma NoSinNumeroInStreet(street: string)
    requires PlainStreet(street)
    ensures forall j :: 0 <= j <= |street| ==> !SinNumeroTail(street[j..])
  {
    forall j | 0 <= j <= |street|
      ensures !SinNumeroTail(street[j..])
    {
      var t := street[j..];
      var a := SpacesEnd(t, 0);
      if a > 0 && a + 3 <= |t| {
        assert t[a + 1] == street[j + a + 1];
      }
    }
  }

  /** A position that does not hold a comma starts no match. */
  lemma NoPosadasWithoutComma(s: string, i: nat)
    requires i <= |s|
    requires forall j :: 0 <= j < i ==> s[j] != ','
    ensures forall j :: 0 <= j < i ==> !PosadasTail(s[j..])
  {
    forall j | 0 <= j < i
      ensures !PosadasTail(s[j..])
    {
      assert s[j..][0] == s[j];
    }
  }

  lemma FirstPosadasInCleaned(street: string, num: string)
    requires PlainStreet(street) && AllDigits(num)
    ensures FirstMatch(street + " " + num + TownAndProvince, PosadasTail) == Some(|street| + 1 + |num|)
  {
    var withNum := street + " " + num;
    var cleaned := withNum + TownAndProvince;
    assert cleaned[|withNum|..] == TownAndProvince;
    PosadasTailOfTown();
    forall j | 0 <= j < |withNum|
      ensures cleaned[j] != ','
    {
      assert cleaned[j] == withNum[j];
      if j < |street| {
        assert withNum[j] == street[j];
      } else if j > |street| {
        assert withNum[j] == num[j - |street| - 1];
      }
    }
    NoPosadasWithoutComma(cleaned, |withNum|);
    FirstMatchAt(cleaned, PosadasTail, |withNum|);
  }

  lemma CutPosadasOfCleaned(street: string, num: string)
    requires PlainStreet(street) && AllDigits(num)
    ensures CutPosadas(street + " " + num + TownAndProvince) == street + " " + num
  {
    var withNum := street + " " + num;
    var cleaned := withNum + TownAndProvince;
    FirstPosadasInCleaned(street, num);
    assert cleaned[|cleaned| - 1] == 'a';
    assert cleaned[..|withNum|] == withNum;
  }

  lemma NumberOfStreetNum(street: string, num: string)
    requires PlainStreet(street) && AllDigits(num)
    ensures FirstMatch(street + " " + num, HasNumberTail) == Some(|street|)
    ensures NumberTail((street + " " + num)[|street|..]) == Some(num)
    ensures CutNumber(street + " " + num) == street
  {
    var withNum := street + " " + num;
    var t := withNum[|street|..];
    assert t == " " + num;
    var e := |t|;
    assert NumberShape(t, 1, e, e, e, e, e);
    NumberTailComplete(t, 1, e, e, e, e, e);
    assert t[1..e] == num;
    NoNumberInStreet(street, num);
    FirstMatchAt(withNum, HasNumberTail, |street|);
    assert withNum[..|street|] == street;
  }

  lemma StreetUnchanged(street: string)
    requires PlainStreet(street)
    ensures Strip(CutSinNumero(street)) == street
  {
    NoSinNumeroInStreet(street);
    FirstMatchNone(street, SinNumeroTail);
    StripStripped(street);
  }

  /** On the text `clean_address` typically produces, "<street> <number>,
      Posadas, Córdoba, España", the street extraction returns the street,
      the structured query gets "<street> <number>", and the simplified
      query drops the number. */
  lemma ExtractFromCleaned(street: string, num: string)
    requires PlainStreet(street) && AllDigits(num)
    ensures ExtractStreetOnly(street + " " + num + TownAndProvince) == street
    ensures StreetWithNumber(street + " " + num + TownAndProvince) == street + " " + num
    ensures SimplifyForSearch(street + " " + num + TownAndProvince) == street + TownAndProvince
  {
    StreetOfCleaned(street, num);
    StreetWithNumberOfCleaned(street, num);
  }

  lemma StreetOfCleaned(street: string, num: string)
    requires PlainStreet(street) && AllDigits(num)
    ensures ExtractStreetOnly(street + " " + num + TownAndProvince) == street
  {
    CutPosadasOfCleaned(street, num);
    NumberOfStreetNum(street, num);
    StreetUnchanged(street);
  }

  lemma StreetWithNumberOfCleaned(street: string, num: string)
    requires PlainStreet(street) && AllDigits(num)
    ensures StreetWithNumber(street + " " + num + TownAndProvince) == street + " " + num
  {
    var withNum := street + " " + num;
    var cleaned := withNum + TownAndProvince;
    assert ExtractStreetOnly(cleaned) == street by {
      StreetOfCleaned(street, num);
    }
    assert CutPosadas(cleaned) == withNum && FirstMatch(withNum, HasNumberTail) == Some(|street|)
        && NumberTail(withNum[|street|..]) == Some(num) by {
      CutPosadasOfCleaned(street, num);
      NumberOfStreetNum(street, num);
    }
    StreetWithNumberAt(cleaned, |street|);
    ConcatAssoc(street, " ", num);
  }

  /** `StreetWithNumber` once the number search has found a match at `i`. */
  lemma StreetWithNumberAt(cleaned: string, i: nat)
    requires FirstMatch(CutPosadas(cleaned), HasNumberTail) == Some(i)
    ensures i <= |CutPosadas(cleaned)| && HasNumberTail(CutPosadas(cleaned)[i..])
    ensures StreetWithNumber(cleaned)
         == ExtractStreetOnly(cleaned) + (" " + NumberTail(CutPosadas(cleaned)[i..]).value)
  {
  }
}
