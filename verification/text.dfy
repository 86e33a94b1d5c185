/** Text primitives standing for the Python `str` methods the planner uses:
    `strip`, `lower`, `capitalize`, `split()`, `" ".join`, `in` and integer
    printing. Characters are Unicode scalar values; case mapping covers ASCII
    and the Latin-1 letters, which is the alphabet of the addresses handled. */
module Text {

  /** Whitespace as recognised by `str.split()`, `str.strip()` and the regular
      expression class `\s`: the characters Python's `str.isspace` accepts. */
  predicate IsSpace(c: char)
  {
    || c == ' ' || '\t' <= c <= '\r' || '\U{1C}' <= c <= '\U{1F}'
    || c == '\U{85}' || c == '\U{A0}' || c == '\U{1680}' || '\U{2000}' <= c <= '\U{200A}'
    || c == '\U{2028}' || c == '\U{2029}' || c == '\U{202F}' || c == '\U{205F}' || c == '\U{3000}'
  }

  predicate IsDigit(c: char)
  {
    '0' <= c <= '9'
  }

  predicate IsAsciiLetter(c: char)
  {
    'A' <= c <= 'Z' || 'a' <= c <= 'z'
  }

  /** No leading and no trailing whitespace. */
  predicate Stripped(s: string)
  {
    s == [] || (!IsSpace(s[0]) && !IsSpace(s[|s| - 1]))
  }

  /** `s.lstrip()`: the longest suffix of `s` that does not start with whitespace. */
  function TrimStart(s: string): (r: string)
    ensures |r| <= |s| && r == s[|s| - |r|..]
    ensures r == [] || !IsSpace(r[0])
    ensures forall i :: 0 <= i < |s| - |r| ==> IsSpace(s[i])
  {
    if s != [] && IsSpace(s[0]) then TrimStart(s[1..]) else s
  }

  /** `s.rstrip()`: the longest prefix of `s` that does not end with whitespace. */
  function TrimEnd(s: string): (r: string)
    ensures |r| <= |s| && r == s[..|r|]
    ensures r == [] || !IsSpace(r[|r| - 1])
    ensures forall i :: |r| <= i < |s| ==> IsSpace(s[i])
  {
    if s != [] && IsSpace(s[|s| - 1]) then TrimEnd(s[..|s| - 1]) else s
  }

  /** `s.strip()`: `s` without its leading and trailing whitespace. */
  function Strip(s: string): (r: string)
    ensures Stripped(r)
  {
    TrimEnd(TrimStart(s))
  }

  /** `strip` removes only whitespace, from the ends: the result occurs in
      the input, and it is empty exactly when the input is all whitespace. */
  lemma StripSpec(s: string)
    ensures Contains(s, Strip(s))
    ensures AllSpace(s) <==> Strip(s) == []
  {
    var t := TrimStart(s);
    var n := |s| - |t|;
    assert OccursAt(s, Strip(s), n);
    if Strip(s) == [] {
      assert t == [];
    }
  }

  predicate AllSpace(s: string)
  {
    forall i :: 0 <= i < |s| ==> IsSpace(s[i])
  }

  lemma Split3<T>(s: seq<T>, i: nat, j: nat)
    requires i <= j <= |s|
    ensures s == s[..i] + s[i..j] + s[j..]
  {
  }

  lemma Split4<T>(s: seq<T>, i: nat, j: nat, k: nat)
    requires i <= j <= k <= |s|
    ensures s[..k] == s[..i] + s[i..j] + s[j..k]
    ensures s == s[..i] + s[i..j] + s[j..k] + s[k..]
  {
    assert s[..k] == s[..i] + s[i..j] + s[j..k];
  }

  lemma TrimStartSplit(s: string)
    ensures AllSpace(s[..|s| - |TrimStart(s)|])
  {
    var i := |s| - |TrimStart(s)|;
    assert forall k :: 0 <= k < i ==> s[..i][k] == s[k];
  }

  lemma TrimEndSplit(t: string)
    ensures AllSpace(t[|TrimEnd(t)|..])
  {
    var n := |TrimEnd(t)|;
    assert forall k :: 0 <= k < |t| - n ==> t[n..][k] == t[n + k];
  }

  /** `s` is `Strip(s)` with whitespace on either side. */
  lemma StripSplit(s: string) returns (i: nat)
    ensures i + |Strip(s)| <= |s|
    ensures s == s[..i] + Strip(s) + s[i + |Strip(s)|..]
    ensures AllSpace(s[..i]) && AllSpace(s[i + |Strip(s)|..])
  {
    var t := TrimStart(s);
    var r := TrimEnd(t);
    i := |s| - |t|;
    TrimStartSplit(s);
    TrimEndSplit(t);
    assert r == s[i..i + |r|] by {
      assert t == s[i..];
      assert r == t[..|r|];
    }
    assert s[i + |r|..] == t[|r|..];
    Split3(s, i, i + |r|);
  }

  lemma StripStripped(s: string)
    requires Stripped(s)
    ensures Strip(s) == s
  {
  }

  /** `str.lower()` on one character: ASCII and Latin-1 capitals map to their
      small letters, everything else is unchanged. */
  function LowerChar(c: char): char
  {
    if 'A' <= c <= 'Z' || ('\U{C0}' <= c <= '\U{DE}' && c != '\U{D7}') then (c as int + 32) as char else c
  }

  /** `str.upper()` on one character, the inverse mapping of `LowerChar`. */
  function UpperChar(c: char): char
  {
    if 'a' <= c <= 'z' || ('\U{E0}' <= c <= '\U{FE}' && c != '\U{F7}') then (c as int - 32) as char else c
  }

  function Lower(s: string): (r: string)
  {
    seq(|s|, i requires 0 <= i < |s| => LowerChar(s[i]))
  }

  lemma LowerAppend(a: string, b: string)
    ensures Lower(a + b) == Lower(a) + Lower(b)
  {
  }

  /** `str.capitalize()`: first character upper case, the rest lower case. */
  function Capitalize(s: string): (r: string)
    ensures |r| == |s|
    ensures s != [] ==> r[0] == UpperChar(s[0]) && r[1..] == Lower(s[1..])
  {
    if s == [] then [] else [UpperChar(s[0])] + Lower(s[1..])
  }

  /** `sub` occurs in `s` starting at index `i`. */
  predicate OccursAt(s: string, sub: string, i: int)
  {
    0 <= i && i + |sub| <= |s| && s[i..i + |sub|] == sub
  }

  /** `sub in s`. */
  predicate Contains(s: string, sub: string)
  {
    exists i | 0 <= i <= |s| - |sub| :: OccursAt(s, sub, i)
  }

  lemma ContainsLeft(a: string, b: string, sub: string)
    requires Contains(a, sub)
    ensures Contains(a + b, sub)
  {
    var i :| 0 <= i <= |a| - |sub| && OccursAt(a, sub, i);
    assert OccursAt(a + b, sub, i) by {
      assert (a + b)[i..i + |sub|] == a[i..i + |sub|];
    }
  }

  lemma ContainsRight(a: string, b: string, sub: string)
    requires Contains(b, sub)
    ensures Contains(a + b, sub)
  {
    var i :| 0 <= i <= |b| - |sub| && OccursAt(b, sub, i);
    assert OccursAt(a + b, sub, |a| + i) by {
      assert (a + b)[|a| + i..|a| + i + |sub|] == b[i..i + |sub|];
    }
  }

  lemma ContainsItself(s: string)
    ensures Contains(s, s)
  {
    assert OccursAt(s, s, 0);
  }

  predicate StartsWith(s: string, prefix: string)
  {
    |prefix| <= |s| && s[..|prefix|] == prefix
  }

  lemma ConcatAssoc<T>(a: seq<T>, b: seq<T>, c: seq<T>)
    ensures a + (b + c) == a + b + c
  {
  }

  lemma StartsWithAppend(a: string, b: string)
    ensures StartsWith(a + b, a)
  {
    assert (a + b)[..|a|] == a;
  }

  predicate EndsWith(s: string, suffix: string)
  {
    |suffix| <= |s| && s[|s| - |suffix|..] == suffix
  }

  // ---------------------------------------------------------------------------
  // Splitting on whitespace and joining with single spaces
  // ---------------------------------------------------------------------------

  /** A word of `str.split()`: non-empty and free of whitespace. */
  predicate IsWord(w: string)
  {
    w != [] && forall i :: 0 <= i < |w| ==> !IsSpace(w[i])
  }

  /** Length of the whitespace-free prefix of `s`. */
  function WordLen(s: string): (n: nat)
    ensures n <= |s|
    ensures forall i :: 0 <= i < n ==> !IsSpace(s[i])
    ensures n == |s| || IsSpace(s[n])
  {
    if s == [] || IsSpace(s[0]) then 0 else 1 + WordLen(s[1..])
  }

  /** `s.split()`: the maximal whitespace-free runs of `s`, in order. */
  function Words(s: string): (ws: seq<string>)
    ensures forall k :: 0 <= k < |ws| ==> IsWord(ws[k])
    decreases |s|
  {
    if s == [] then []
    else if IsSpace(s[0]) then Words(s[1..])
    else
      var n := WordLen(s);
      [s[..n]] + Words(s[n..])
  }

  /** `" ".join(ws)`. */
  function JoinWords(ws: seq<string>): string
  {
    if ws == [] then "" else if |ws| == 1 then ws[0] else ws[0] + " " + JoinWords(ws[1..])
  }

  /** Every whitespace character is a single plain space with a non-space on
      each side: no leading or trailing blanks, no double spaces. */
  predicate SingleSpaced(s: string)
  {
    forall i :: 0 <= i < |s| && IsSpace(s[i]) ==>
      s[i] == ' ' && 0 < i < |s| - 1 && !IsSpace(s[i - 1]) && !IsSpace(s[i + 1])
  }

  lemma {:induction false} JoinWordsSingleSpaced(ws: seq<string>)
    requires forall k :: 0 <= k < |ws| ==> IsWord(ws[k])
    ensures SingleSpaced(JoinWords(ws))
    ensures ws != [] ==> JoinWords(ws) != []
  {
    if |ws| > 1 {
      var rest := JoinWords(ws[1..]);
      JoinWordsSingleSpaced(ws[1..]);
      var w := ws[0];
      var s := w + " " + rest;
      assert s == JoinWords(ws);
      assert rest != [];
      assert !IsSpace(rest[0]) by {
        if IsSpace(rest[0]) {
          assert false;
        }
      }
      forall i | 0 <= i < |s| && IsSpace(s[i])
        ensures s[i] == ' ' && 0 < i < |s| - 1 && !IsSpace(s[i - 1]) && !IsSpace(s[i + 1])
      {
        if i < |w| {
          assert false;
        } else if i == |w| {
          assert s[i + 1] == rest[0];
        } else {
          var j := i - |w| - 1;
          assert s[i] == rest[j];
          assert j > 0 by {
            if j == 0 {
              assert false;
            }
          }
          assert s[i - 1] == rest[j - 1];
          assert s[i + 1] == rest[j + 1];
        }
      }
    }
  }

  lemma {:induction false} WordLenOfWord(w: string, t: string)
    requires IsWord(w)
    requires t == [] || IsSpace(t[0])
    ensures WordLen(w + t) == |w|
    decreases |w|
  {
    if |w| > 1 {
      assert (w + t)[1..] == w[1..] + t;
      WordLenOfWord(w[1..], t);
    } else {
      assert (w + t)[1..] == t;
    }
  }

  lemma WordsOfWordThen(w: string, t: string)
    requires IsWord(w)
    requires t == [] || IsSpace(t[0])
    ensures Words(w + t) == [w] + Words(t)
  {
    WordLenOfWord(w, t);
    assert (w + t)[..|w|] == w;
    assert (w + t)[|w|..] == t;
  }

  lemma {:induction false} WordsLeadingSpaces(p: string, x: string)
    requires AllSpace(p)
    ensures Words(p + x) == Words(x)
  {
    if p != [] {
      assert (p + x)[1..] == p[1..] + x;
      WordsLeadingSpaces(p[1..], x);
    } else {
      assert p + x == x;
    }
  }

  lemma {:induction false} WordLenBeforeSpace(x: string, t: string)
    requires t != [] && IsSpace(t[0])
    ensures WordLen(x + t) == WordLen(x)
  {
    if x != [] && !IsSpace(x[0]) {
      assert (x + t)[1..] == x[1..] + t;
      WordLenBeforeSpace(x[1..], t);
    } else if x == [] {
      assert x + t == t;
    }
  }

  lemma {:induction false} WordsTrailingSpaces(x: string, p: string)
    requires AllSpace(p)
    ensures Words(x + p) == Words(x)
    decreases |x|
  {
    if x == [] {
      WordsLeadingSpaces(p, []);
      assert x + p == p + [];
    } else if IsSpace(x[0]) {
      assert (x + p)[1..] == x[1..] + p;
      WordsTrailingSpaces(x[1..], p);
    } else {
      var n := WordLen(x);
      if p != [] {
        WordLenBeforeSpace(x, p);
      } else {
        assert x + p == x;
      }
      assert (x + p)[..n] == x[..n];
      assert (x + p)[n..] == x[n..] + p;
      WordsTrailingSpaces(x[n..], p);
    }
  }

  /** Whitespace around a text does not change its words. */
  lemma WordsOfPadded(pre: string, x: string, post: string)
    requires AllSpace(pre) && AllSpace(post)
    ensures Words(pre + x + post) == Words(x)
  {
    assert pre + x + post == pre + (x + post);
    WordsLeadingSpaces(pre, x + post);
    WordsTrailingSpaces(x, post);
  }

  /** The first word of `x + t` lies inside `x` when `t` starts with a space. */
  lemma WordsOfWordBeforeSpace(x: string, t: string)
    requires x != [] && !IsSpace(x[0])
    requires t != [] && IsSpace(t[0])
    ensures Words(x + t) == [x[..WordLen(x)]] + Words(x[WordLen(x)..] + t)
  {
    var n := WordLen(x);
    WordLenBeforeSpace(x, t);
    assert (x + t)[..n] == x[..n];
    assert (x + t)[n..] == x[n..] + t;
  }

  lemma WordsAfterSpace(x: string, t: string)
    requires x != [] && IsSpace(x[0])
    ensures Words(x + t) == Words(x[1..] + t)
  {
    assert (x + t)[1..] == x[1..] + t;
  }

  /** Any non-empty run of whitespace separates words alike. */
  lemma {:induction false} WordsSeparatorIrrelevant(x: string, p: string, q: string, y: string)
    requires p != [] && AllSpace(p)
    requires q != [] && AllSpace(q)
    ensures Words(x + p + y) == Words(x + q + y)
    decreases |x|
  {
    assert x + p + y == x + (p + y);
    assert x + q + y == x + (q + y);
    if x == [] {
      assert x + (p + y) == p + y && x + (q + y) == q + y;
      WordsLeadingSpaces(p, y);
      WordsLeadingSpaces(q, y);
    } else if IsSpace(x[0]) {
      WordsAfterSpace(x, p + y);
      WordsAfterSpace(x, q + y);
      assert x[1..] + (p + y) == x[1..] + p + y;
      assert x[1..] + (q + y) == x[1..] + q + y;
      WordsSeparatorIrrelevant(x[1..], p, q, y);
    } else {
      var n := WordLen(x);
      WordsOfWordBeforeSpace(x, p + y);
      WordsOfWordBeforeSpace(x, q + y);
      assert x[n..] + (p + y) == x[n..] + p + y;
      assert x[n..] + (q + y) == x[n..] + q + y;
      WordsSeparatorIrrelevant(x[n..], p, q, y);
    }
  }

  /** Splitting a space-joined list of words gives the words back. */
  lemma {:induction false} WordsOfJoin(ws: seq<string>)
    requires forall k :: 0 <= k < |ws| ==> IsWord(ws[k])
    ensures Words(JoinWords(ws)) == ws
  {
    if |ws| == 1 {
      WordsOfWordThen(ws[0], []);
      assert ws[0] + [] == ws[0];
    } else if |ws| > 1 {
      var rest := JoinWords(ws[1..]);
      assert ws[0] + " " + rest == ws[0] + (" " + rest);
      WordsOfWordThen(ws[0], " " + rest);
      assert (" " + rest)[1..] == rest;
      WordsOfJoin(ws[1..]);
    }
  }

  // ---------------------------------------------------------------------------
  // Decimal printing of naturals
  // ---------------------------------------------------------------------------

  function DigitChar(d: nat): (c: char)
    requires d < 10
    ensures IsDigit(c) && DigitValue(c) == d
  {
    ('0' as int + d) as char
  }

  function DigitValue(c: char): (d: nat)
    requires IsDigit(c)
    ensures d < 10
  {
    c as int - '0' as int
  }

  /** A non-empty run of decimal digits. */
  predicate AllDigits(num: string)
  {
    num != [] && forall k :: 0 <= k < |num| ==> IsDigit(num[k])
  }

  /** Value of a string of decimal digits. */
  function DigitsValue(s: string): nat
    requires forall i :: 0 <= i < |s| ==> IsDigit(s[i])
  {
    if s == [] then 0 else DigitsValue(s[..|s| - 1]) * 10 + DigitValue(s[|s| - 1])
  }

  /** `str(n)` for a natural number: decimal digits without leading zeros. */
  function NatToString(n: nat): (s: string)
    ensures s != []
    ensures forall i :: 0 <= i < |s| ==> IsDigit(s[i])
    ensures s[0] == '0' ==> s == "0"
  {
    if n < 10 then [DigitChar(n)] else NatToString(n / 10) + [DigitChar(n % 10)]
  }

  /** Printing then reading back a number gives the number. */
  lemma {:induction false} NatToStringRoundTrip(n: nat)
    ensures DigitsValue(NatToString(n)) == n
  {
    var s := NatToString(n);
    if n >= 10 {
      NatToStringRoundTrip(n / 10);
      assert s[..|s| - 1] == NatToString(n / 10);
    }
  }

  /** A number as `str` writes it: decimal digits with no leading zero. */
  predicate Numeral(w: string)
  {
    AllDigits(w) && (w[0] == '0' ==> w == "0")
  }

  lemma NatToStringNumeral(n: nat)
    ensures Numeral(NatToString(n)) && DigitsValue(NatToString(n)) == n
  {
    NatToStringRoundTrip(n);
  }

  /** Digits led by a non-zero digit are worth at least one. */
  lemma {:induction false} LeadingDigitPositive(w: string)
    requires AllDigits(w) && w[0] != '0'
    ensures DigitsValue(w) >= 1
  {
    if |w| > 1 {
      LeadingDigitPositive(w[..|w| - 1]);
    }
  }

  /** A numeral is the decimal text of its own value. */
  lemma {:induction false} NumeralReadsBack(w: string)
    requires Numeral(w)
    ensures NatToString(DigitsValue(w)) == w
  {
    var v := DigitsValue(w);
    var d := DigitValue(w[|w| - 1]);
    if |w| == 1 {
      assert w[..0] == [] && DigitsValue(w[..0]) == 0;
      assert DigitsValue(w) == DigitsValue(w[..0]) * 10 + DigitValue(w[0]);
      assert DigitChar(d) == w[0];
    } else {
      var p := w[..|w| - 1];
      assert p[0] == w[0] != '0';
      LeadingDigitPositive(p);
      NumeralReadsBack(p);
      assert v == DigitsValue(p) * 10 + d;
      assert v / 10 == DigitsValue(p) && v % 10 == d;
      assert DigitChar(d) == w[|w| - 1];
      assert w == p + [w[|w| - 1]];
    }
  }
}
