/** Address deduplication: the light normaliser that decides when two rows are
    the same physical stop, and the insertion-ordered grouping of rows into
    stops (an `OrderedDict` keyed by the normalised text). Both routers use the
    same normaliser and the same grouping. */
module Dedup {
  import opened Common
  import opened Text

  // ---------------------------------------------------------------------------
  // The normaliser
  // ---------------------------------------------------------------------------

  /** Combining diacritical marks, the characters of Unicode category Mn that
      canonical decomposition of an accented Latin letter produces. */
  predicate IsCombiningMark(c: char)
  {
    '\U{300}' <= c <= '\U{36F}'
  }

  /** Base letter of a lower-case Latin-1 letter under canonical decomposition
      (`á` decomposes to `a` plus a combining acute accent). */
  function BaseLetter(c: char): char
  {
    if '\U{E0}' <= c <= '\U{E5}' then 'a'
    else if c == '\U{E7}' then 'c'
    else if '\U{E8}' <= c <= '\U{EB}' then 'e'
    else if '\U{EC}' <= c <= '\U{EF}' then 'i'
    else if c == '\U{F1}' then 'n'
    else if '\U{F2}' <= c <= '\U{F6}' then 'o'
    else if '\U{F9}' <= c <= '\U{FC}' then 'u'
    else if c == '\U{FD}' || c == '\U{FF}' then 'y'
    else c
  }

  /** What one input character becomes in a key: lower-cased, decomposed with
      its combining marks dropped, and `,`/`.` turned into a space. */
  function KeyChars(c: char): seq<char>
  {
    var l := LowerChar(c);
    if IsCombiningMark(l) then []
    else
      var b := BaseLetter(l);
      if b == ',' || b == '.' then [' '] else [b]
  }

  /** Characters that survive the normaliser unchanged. */
  predicate IsKeyChar(c: char)
  {
    KeyChars(c) == [c]
  }

  predicate IsKeyString(s: string)
  {
    forall i :: 0 <= i < |s| ==> IsKeyChar(s[i])
  }

  lemma KeyCharsStable(c: char)
    ensures forall k :: 0 <= k < |KeyChars(c)| ==> IsKeyChar(KeyChars(c)[k])
  {
  }

  lemma KeyCharFacts(c: char)
    requires IsKeyChar(c)
    ensures c != ',' && c != '.' && LowerChar(c) == c && !IsCombiningMark(c)
  {
  }

  /** The per-character part of the normaliser over a whole string. */
  function FoldChars(s: string): string
  {
    if s == [] then [] else KeyChars(s[0]) + FoldChars(s[1..])
  }

  lemma {:induction false} FoldCharsKeyString(s: string)
    ensures IsKeyString(FoldChars(s))
  {
    if s != [] {
      FoldCharsKeyString(s[1..]);
      KeyCharsStable(s[0]);
      var r := FoldChars(s);
      forall i | 0 <= i < |r|
        ensures IsKeyChar(r[i])
      {
        if i < |KeyChars(s[0])| {
          assert r[i] == KeyChars(s[0])[i];
        } else {
          assert r[i] == FoldChars(s[1..])[i - |KeyChars(s[0])|];
        }
      }
    }
  }

  lemma {:induction false} FoldCharsOfKeyString(s: string)
    requires IsKeyString(s)
    ensures FoldChars(s) == s
  {
    if s != [] {
      FoldCharsOfKeyString(s[1..]);
      assert IsKeyChar(s[0]);
    }
  }

  /** `_normalize_for_dedup`: strip, lower-case, drop diacritics, turn commas
      and periods into spaces, and collapse whitespace runs to one space. */
  function NormalizeForDedup(addr: string): (key: string)
    ensures SingleSpaced(key)
    ensures IsKeyString(key)
    ensures forall i :: 0 <= i < |key| ==> key[i] != ',' && key[i] != '.' && LowerChar(key[i]) == key[i]
  {
    var folded := FoldChars(Strip(addr));
    var ws := Words(folded);
    FoldCharsKeyString(Strip(addr));
    WordsKeyStrings(folded);
    JoinWordsSingleSpaced(ws);
    JoinWordsKeyString(ws);
    var key := JoinWords(ws);
    assert forall i :: 0 <= i < |key| ==> IsKeyChar(key[i]);
    forall i | 0 <= i < |key|
      ensures key[i] != ',' && key[i] != '.' && LowerChar(key[i]) == key[i]
    {
      KeyCharFacts(key[i]);
    }
    key
  }

  lemma {:induction false} WordsKeyStrings(s: string)
    requires IsKeyString(s)
    ensures forall k :: 0 <= k < |Words(s)| ==> IsKeyString(Words(s)[k])
    decreases |s|
  {
    if s != [] {
      if IsSpace(s[0]) {
        WordsKeyStrings(s[1..]);
      } else {
        var n := WordLen(s);
        WordsKeyStrings(s[n..]);
        assert IsKeyString(s[..n]);
      }
    }
  }

  lemma {:induction false} JoinWordsKeyString(ws: seq<string>)
    requires forall k :: 0 <= k < |ws| ==> IsKeyString(ws[k])
    ensures IsKeyString(JoinWords(ws))
  {
    if |ws| > 1 {
      JoinWordsKeyString(ws[1..]);
      var s := JoinWords(ws);
      assert s == ws[0] + " " + JoinWords(ws[1..]);
      assert IsKeyChar(' ');
    }
  }

  /** Normalising a key again gives the same key. */
  lemma NormalizeIdempotent(addr: string)
    ensures NormalizeForDedup(NormalizeForDedup(addr)) == NormalizeForDedup(addr)
  {
    var key := NormalizeForDedup(addr);
    var ws := Words(FoldChars(Strip(addr)));
    assert key == JoinWords(ws);
    assert Stripped(key) by {
      if key != [] {
        assert !IsSpace(key[0]);
        assert !IsSpace(key[|key| - 1]);
      }
    }
    assert Strip(key) == key by { StripStripped(key); }
    assert FoldChars(key) == key by { FoldCharsOfKeyString(key); }
    assert Words(key) == ws by { WordsOfJoin(ws); }
  }

  lemma {:induction false} FoldCharsAppend(a: string, b: string)
    ensures FoldChars(a + b) == FoldChars(a) + FoldChars(b)
  {
    if a == [] {
      assert a + b == b;
    } else {
      assert (a + b)[1..] == a[1..] + b;
      FoldCharsAppend(a[1..], b);
    }
  }

  lemma {:induction false} FoldCharsOfSpaces(p: string)
    requires AllSpace(p)
    ensures FoldChars(p) == p
  {
    if p != [] {
      FoldCharsOfSpaces(p[1..]);
    }
  }

  lemma FoldCharsAppend3(a: string, b: string, c: string)
    ensures FoldChars(a + b + c) == FoldChars(a) + FoldChars(b) + FoldChars(c)
  {
    FoldCharsAppend(a + b, c);
    FoldCharsAppend(a, b);
  }

  lemma FoldPadded(pre: string, m: string, post: string)
    requires AllSpace(pre) && AllSpace(post)
    ensures FoldChars(pre + m + post) == pre + FoldChars(m) + post
  {
    FoldCharsAppend3(pre, m, post);
    FoldCharsOfSpaces(pre);
    FoldCharsOfSpaces(post);
  }

  lemma FoldStrip(addr: string) returns (pre: string, post: string)
    ensures FoldChars(addr) == pre + FoldChars(Strip(addr)) + post
    ensures AllSpace(pre) && AllSpace(post)
  {
    var m := Strip(addr);
    var i := StripSplit(addr);
    pre := addr[..i];
    post := addr[i + |m|..];
    FoldPadded(pre, m, post);
  }

  /** Stripping first is redundant: the key is the folded text re-joined word by word. */
  lemma NormalizeWithoutStrip(addr: string)
    ensures NormalizeForDedup(addr) == JoinWords(Words(FoldChars(addr)))
  {
    var pre, post := FoldStrip(addr);
    WordsOfPadded(pre, FoldChars(Strip(addr)), post);
  }

  lemma {:induction false} FoldCharsPointwise(a: string, b: string)
    requires |a| == |b|
    requires forall i :: 0 <= i < |a| ==> KeyChars(a[i]) == KeyChars(b[i])
    ensures FoldChars(a) == FoldChars(b)
  {
    if a != [] {
      FoldCharsPointwise(a[1..], b[1..]);
    }
  }

  /** Addresses that differ only in letter case, accents, or in using `,`, `.`
      or a space at the same position get the same key. */
  lemma KeyIgnoresCaseAccentsAndSeparators(a: string, b: string)
    requires |a| == |b|
    requires forall i :: 0 <= i < |a| ==> KeyChars(a[i]) == KeyChars(b[i])
    ensures NormalizeForDedup(a) == NormalizeForDedup(b)
  {
    NormalizeWithoutStrip(a);
    NormalizeWithoutStrip(b);
    FoldCharsPointwise(a, b);
  }

  /** A combining mark (the decomposed form of an accent) does not change the key. */
  lemma KeyIgnoresCombiningMark(a: string, m: char, b: string)
    requires IsCombiningMark(m)
    ensures NormalizeForDedup(a + [m] + b) == NormalizeForDedup(a + b)
  {
    NormalizeWithoutStrip(a + [m] + b);
    NormalizeWithoutStrip(a + b);
    FoldDropsCombiningMark(a, m, b);
  }

  lemma FoldDropsCombiningMark(a: string, m: char, b: string)
    requires IsCombiningMark(m)
    ensures FoldChars(a + [m] + b) == FoldChars(a + b)
  {
    assert a + [m] + b == a + ([m] + b);
    FoldCharsAppend(a, [m] + b);
    FoldCharsAppend([m], b);
    FoldOfMark(m);
    assert [] + FoldChars(b) == FoldChars(b);
    FoldCharsAppend(a, b);
  }

  lemma FoldOfMark(m: char)
    requires IsCombiningMark(m)
    ensures FoldChars([m]) == []
  {
    assert KeyChars(m) == [] by {
      assert LowerChar(m) == m;
    }
    assert [m][1..] == [];
  }

  /** Runs of whitespace of any length separate words alike. */
  lemma KeyIgnoresSpacing(a: string, p: string, q: string, b: string)
    requires p != [] && AllSpace(p)
    requires q != [] && AllSpace(q)
    ensures NormalizeForDedup(a + p + b) == NormalizeForDedup(a + q + b)
  {
    NormalizeWithoutStrip(a + p + b);
    NormalizeWithoutStrip(a + q + b);
    FoldCharsAppend3(a, p, b);
    FoldCharsAppend3(a, q, b);
    FoldCharsOfSpaces(p);
    FoldCharsOfSpaces(q);
    WordsSeparatorIrrelevant(FoldChars(a), p, q, FoldChars(b));
  }
  /** Pointwise equal key characters survive concatenation. */
  lemma SameKeyCharsConcat(a: string, q: string, b: string, a': string, b': string)
    requires |a| == |a'| && forall i :: 0 <= i < |a| ==> KeyChars(a[i]) == KeyChars(a'[i])
    requires |b| == |b'| && forall i :: 0 <= i < |b| ==> KeyChars(b[i]) == KeyChars(b'[i])
    ensures |a + q + b| == |a' + q + b'|
    ensures forall i :: 0 <= i < |a + q + b| ==> KeyChars((a + q + b)[i]) == KeyChars((a' + q + b')[i])
  {
    var x, y := a + q + b, a' + q + b';
    forall i | 0 <= i < |x|
      ensures KeyChars(x[i]) == KeyChars(y[i])
    {
      if i >= |a| + |q| {
        assert x[i] == b[i - |a| - |q|] && y[i] == b'[i - |a| - |q|];
      } else if i < |a| {
        assert x[i] == a[i] && y[i] == a'[i];
      } else {
        assert x[i] == q[i - |a|] == y[i];
      }
    }
  }

  /** Two words that differ only in case, accents or `,`/`.`, separated by
      runs of spaces of different lengths, get the same key; this is the
      shape of "Calle Gaitán 1" against "calle gaitan  1". */
  lemma KeyIgnoresCaseAccentsAndSpacing(a: string, p: string, b: string, a': string, q: string, b': string)
    requires |a| == |a'| && forall i :: 0 <= i < |a| ==> KeyChars(a[i]) == KeyChars(a'[i])
    requires |b| == |b'| && forall i :: 0 <= i < |b| ==> KeyChars(b[i]) == KeyChars(b'[i])
    requires p != [] && AllSpace(p)
    requires q != [] && AllSpace(q)
    ensures NormalizeForDedup(a + p + b) == NormalizeForDedup(a' + q + b')
  {
    KeyIgnoresSpacing(a, p, q, b);
    var x, y := a + q + b, a' + q + b';
    SameKeyCharsConcat(a, q, b, a', b');
    KeyIgnoresCaseAccentsAndSeparators(x, y);
  }


  // ---------------------------------------------------------------------------
  // Insertion-ordered grouping
  // ---------------------------------------------------------------------------

  /** One input row with its precomputed dedup key. */
  datatype Row = Row(key: string, address: string, name: string)

  /** One `OrderedDict` entry: the key, the original text of the first row with
      that key, every row's client name in row order, and the row count. */
  datatype Group = Group(key: string, address: string, names: seq<string>, count: nat)

  /** Position of `key` among the groups, or `|gs|` when absent. */
  function IndexOfKey(gs: seq<Group>, key: string): (i: nat)
    ensures i <= |gs|
    ensures i < |gs| ==> gs[i].key == key
    ensures forall j :: 0 <= j < i ==> gs[j].key != key
  {
    if gs == [] then 0
    else if gs[0].key == key then 0
    else 1 + IndexOfKey(gs[1..], key)
  }

  /** One iteration of the grouping loop: open a group for a new key, or
      append the row's name to its existing group. */
  function AddRow(gs: seq<Group>, r: Row): seq<Group>
  {
    var i := IndexOfKey(gs, r.key);
    if i == |gs| then gs + [Group(r.key, r.address, [r.name], 1)]
    else gs[i := gs[i].(names := gs[i].names + [r.name], count := gs[i].count + 1)]
  }

  /** The grouping loop over all rows, in row order. */
  function GroupRows(rows: seq<Row>): seq<Group>
  {
    if rows == [] then [] else AddRow(GroupRows(rows[..|rows| - 1]), rows[|rows| - 1])
  }

  /** Reference definition: index of the first row with `key`, or `|rows|`. */
  function FirstIndex(rows: seq<Row>, key: string): (i: nat)
    ensures i <= |rows|
    ensures i < |rows| ==> rows[i].key == key
    ensures forall j :: 0 <= j < i ==> rows[j].key != key
  {
    if rows == [] then 0
    else if rows[0].key == key then 0
    else 1 + FirstIndex(rows[1..], key)
  }

  /** Reference definition: the names of the rows with `key`, in row order. */
  function NamesWithKey(rows: seq<Row>, key: string): seq<string>
  {
    if rows == [] then []
    else (if rows[0].key == key then [rows[0].name] else []) + NamesWithKey(rows[1..], key)
  }

  lemma {:induction false} FirstIndexAppend(rows: seq<Row>, r: Row, key: string)
    ensures FirstIndex(rows + [r], key) ==
      if FirstIndex(rows, key) < |rows| then FirstIndex(rows, key)
      else if r.key == key then |rows| else |rows| + 1
  {
    if rows != [] {
      assert (rows + [r])[1..] == rows[1..] + [r];
      FirstIndexAppend(rows[1..], r, key);
    }
  }

  lemma {:induction false} NamesWithKeyAppend(rows: seq<Row>, r: Row, key: string)
    ensures NamesWithKey(rows + [r], key) ==
      NamesWithKey(rows, key) + (if r.key == key then [r.name] else [])
  {
    if rows == [] {
      assert rows + [r] == [r];
    } else {
      assert (rows + [r])[1..] == rows[1..] + [r];
      NamesWithKeyAppend(rows[1..], r, key);
    }
  }

  lemma {:induction false} NamesWithAbsentKey(rows: seq<Row>, key: string)
    requires FirstIndex(rows, key) == |rows|
    ensures NamesWithKey(rows, key) == []
  {
    if rows != [] {
      NamesWithAbsentKey(rows[1..], key);
    }
  }

  /** Keys are pairwise distinct. */
  ghost predicate DistinctKeys(gs: seq<Group>)
  {
    forall i, j :: 0 <= i < j < |gs| ==> gs[i].key != gs[j].key
  }

  /** Every row's key has a group. */
  ghost predicate KeysCovered(rows: seq<Row>, gs: seq<Group>)
  {
    forall r :: 0 <= r < |rows| ==> IndexOfKey(gs, rows[r].key) < |gs|
  }

  /** Every group's key is some row's key. */
  ghost predicate KeysOccur(rows: seq<Row>, gs: seq<Group>)
  {
    forall i :: 0 <= i < |gs| ==> FirstIndex(rows, gs[i].key) < |rows|
  }

  /** Groups appear in the order their keys are first seen. */
  ghost predicate FirstSeenOrder(rows: seq<Row>, gs: seq<Group>)
  {
    forall i, j :: 0 <= i < j < |gs| ==> FirstIndex(rows, gs[i].key) < FirstIndex(rows, gs[j].key)
  }

  /** Each group's content is that of its rows: the first row's original text,
      every row's name in row order, and as many packages as names. */
  ghost predicate GroupContents(rows: seq<Row>, gs: seq<Group>)
    requires KeysOccur(rows, gs)
  {
    forall i :: 0 <= i < |gs| ==>
      && gs[i].address == rows[FirstIndex(rows, gs[i].key)].address
      && gs[i].names == NamesWithKey(rows, gs[i].key)
      && gs[i].count == |gs[i].names|
  }

  /** The groups are exactly the `OrderedDict` the source builds. */
  ghost predicate IsGrouping(rows: seq<Row>, gs: seq<Group>)
  {
    && DistinctKeys(gs)
    && KeysCovered(rows, gs)
    && KeysOccur(rows, gs)
    && FirstSeenOrder(rows, gs)
    && GroupContents(rows, gs)
  }

  lemma OtherKeyUnchanged(rows: seq<Row>, r: Row, key: string)
    requires FirstIndex(rows, key) < |rows|
    ensures FirstIndex(rows + [r], key) == FirstIndex(rows, key)
    ensures key != r.key ==> NamesWithKey(rows + [r], key) == NamesWithKey(rows, key)
  {
    FirstIndexAppend(rows, r, key);
    NamesWithKeyAppend(rows, r, key);
  }

  lemma NewKeyAbsent(rows: seq<Row>, gs: seq<Group>, r: Row)
    requires forall q :: 0 <= q < |rows| ==> IndexOfKey(gs, rows[q].key) < |gs|
    requires IndexOfKey(gs, r.key) == |gs|
    ensures FirstIndex(rows, r.key) == |rows|
    ensures FirstIndex(rows + [r], r.key) == |rows|
    ensures NamesWithKey(rows + [r], r.key) == [r.name]
  {
    var f := FirstIndex(rows, r.key);
    if f < |rows| {
      assert false;
    }
    FirstIndexAppend(rows, r, r.key);
    NamesWithKeyAppend(rows, r, r.key);
    NamesWithAbsentKey(rows, r.key);
  }

  lemma AddNewGroupCovered(rows: seq<Row>, gs: seq<Group>, r: Row)
    requires KeysCovered(rows, gs)
    requires IndexOfKey(gs, r.key) == |gs|
    ensures KeysCovered(rows + [r], AddRow(gs, r))
  {
    var rows' := rows + [r];
    var gs' := AddRow(gs, r);
    forall q | 0 <= q < |rows'|
      ensures IndexOfKey(gs', rows'[q].key) < |gs'|
    {
      if q < |rows| {
        var k := IndexOfKey(gs, rows[q].key);
        assert gs'[k].key == rows'[q].key;
      } else {
        assert gs'[|gs|].key == rows'[q].key;
      }
    }
  }

  lemma NewGroupFacts(rows: seq<Row>, gs: seq<Group>, r: Row)
    requires IsGrouping(rows, gs)
    requires IndexOfKey(gs, r.key) == |gs|
    ensures AddRow(gs, r) == gs + [Group(r.key, r.address, [r.name], 1)]
    ensures FirstIndex(rows + [r], r.key) == |rows|
    ensures NamesWithKey(rows + [r], r.key) == [r.name]
    ensures forall i :: 0 <= i < |gs| ==> gs[i].key != r.key
    ensures forall i :: 0 <= i < |gs| ==> FirstIndex(rows + [r], gs[i].key) == FirstIndex(rows, gs[i].key)
    ensures forall i :: 0 <= i < |gs| ==> NamesWithKey(rows + [r], gs[i].key) == NamesWithKey(rows, gs[i].key)
  {
    NewKeyAbsent(rows, gs, r);
    forall i | 0 <= i < |gs|
      ensures gs[i].key != r.key
      ensures FirstIndex(rows + [r], gs[i].key) == FirstIndex(rows, gs[i].key)
      ensures NamesWithKey(rows + [r], gs[i].key) == NamesWithKey(rows, gs[i].key)
    {
      OtherKeyUnchanged(rows, r, gs[i].key);
    }
  }

  lemma AddNewGroupDistinct(rows: seq<Row>, gs: seq<Group>, r: Row)
    requires IsGrouping(rows, gs)
    requires IndexOfKey(gs, r.key) == |gs|
    ensures DistinctKeys(AddRow(gs, r))
  {
    NewGroupFacts(rows, gs, r);
    var gs' := AddRow(gs, r);
    forall i, j | 0 <= i < j < |gs'|
      ensures gs'[i].key != gs'[j].key
    {
      if j == |gs| {
        assert gs'[i].key == gs[i].key;
      } else {
        assert gs'[i] == gs[i] && gs'[j] == gs[j];
      }
    }
  }

  lemma AddNewGroupOccur(rows: seq<Row>, gs: seq<Group>, r: Row)
    requires IsGrouping(rows, gs)
    requires IndexOfKey(gs, r.key) == |gs|
    ensures KeysOccur(rows + [r], AddRow(gs, r))
  {
    NewGroupFacts(rows, gs, r);
    var gs' := AddRow(gs, r);
    forall i | 0 <= i < |gs'|
      ensures FirstIndex(rows + [r], gs'[i].key) < |rows + [r]|
    {
      if i < |gs| {
        assert gs'[i] == gs[i];
      }
    }
  }

  lemma AddNewGroupOrder(rows: seq<Row>, gs: seq<Group>, r: Row)
    requires IsGrouping(rows, gs)
    requires IndexOfKey(gs, r.key) == |gs|
    ensures FirstSeenOrder(rows + [r], AddRow(gs, r))
  {
    NewGroupFacts(rows, gs, r);
  }

  lemma AddNewGroupContents(rows: seq<Row>, gs: seq<Group>, r: Row)
    requires IsGrouping(rows, gs)
    requires IndexOfKey(gs, r.key) == |gs|
    ensures KeysOccur(rows + [r], AddRow(gs, r))
    ensures GroupContents(rows + [r], AddRow(gs, r))
  {
    NewGroupFacts(rows, gs, r);
    AddNewGroupOccur(rows, gs, r);
    var gs' := AddRow(gs, r);
    forall i | 0 <= i < |gs'|
      ensures gs'[i].address == (rows + [r])[FirstIndex(rows + [r], gs'[i].key)].address
      ensures gs'[i].names == NamesWithKey(rows + [r], gs'[i].key)
      ensures gs'[i].count == |gs'[i].names|
    {
      if i < |gs| {
        assert gs'[i] == gs[i];
        assert (rows + [r])[FirstIndex(rows, gs[i].key)] == rows[FirstIndex(rows, gs[i].key)];
      }
    }
  }

  lemma AddNewGroup(rows: seq<Row>, gs: seq<Group>, r: Row)
    requires IsGrouping(rows, gs)
    requires IndexOfKey(gs, r.key) == |gs|
    ensures IsGrouping(rows + [r], AddRow(gs, r))
  {
    AddNewGroupCovered(rows, gs, r);
    AddNewGroupDistinct(rows, gs, r);
    AddNewGroupOrder(rows, gs, r);
    AddNewGroupContents(rows, gs, r);
  }

  lemma ExistingGroupFacts(rows: seq<Row>, gs: seq<Group>, r: Row)
    requires IsGrouping(rows, gs)
    requires IndexOfKey(gs, r.key) < |gs|
    ensures |AddRow(gs, r)| == |gs|
    ensures forall i :: 0 <= i < |gs| ==>
      AddRow(gs, r)[i].key == gs[i].key && AddRow(gs, r)[i].address == gs[i].address
    ensures forall i :: 0 <= i < |gs| ==> FirstIndex(rows + [r], gs[i].key) == FirstIndex(rows, gs[i].key)
    ensures forall i :: 0 <= i < |gs| ==>
      AddRow(gs, r)[i].names == NamesWithKey(rows + [r], gs[i].key) && AddRow(gs, r)[i].count == |AddRow(gs, r)[i].names|
  {
    var gs' := AddRow(gs, r);
    var x := IndexOfKey(gs, r.key);
    forall i | 0 <= i < |gs|
      ensures gs'[i].key == gs[i].key && gs'[i].address == gs[i].address
      ensures FirstIndex(rows + [r], gs[i].key) == FirstIndex(rows, gs[i].key)
      ensures gs'[i].names == NamesWithKey(rows + [r], gs[i].key) && gs'[i].count == |gs'[i].names|
    {
      FirstIndexAppend(rows, r, gs[i].key);
      NamesWithKeyAppend(rows, r, gs[i].key);
      if i != x {
        assert gs[i].key != r.key;
      }
    }
  }

  lemma AddToExistingGroupCovered(rows: seq<Row>, gs: seq<Group>, r: Row)
    requires IsGrouping(rows, gs)
    requires IndexOfKey(gs, r.key) < |gs|
    ensures KeysCovered(rows + [r], AddRow(gs, r))
  {
    var rows' := rows + [r];
    var gs' := AddRow(gs, r);
    var x := IndexOfKey(gs, r.key);
    ExistingGroupFacts(rows, gs, r);
    forall q | 0 <= q < |rows'|
      ensures IndexOfKey(gs', rows'[q].key) < |gs'|
    {
      if q < |rows| {
        var k := IndexOfKey(gs, rows[q].key);
        assert gs'[k].key == rows'[q].key;
      } else {
        assert gs'[x].key == rows'[q].key;
      }
    }
  }

  lemma AddToExistingGroupOrder(rows: seq<Row>, gs: seq<Group>, r: Row)
    requires IsGrouping(rows, gs)
    requires IndexOfKey(gs, r.key) < |gs|
    ensures DistinctKeys(AddRow(gs, r))
    ensures KeysOccur(rows + [r], AddRow(gs, r))
    ensures FirstSeenOrder(rows + [r], AddRow(gs, r))
  {
    ExistingGroupFacts(rows, gs, r);
  }

  lemma AddToExistingGroupContents(rows: seq<Row>, gs: seq<Group>, r: Row)
    requires IsGrouping(rows, gs)
    requires IndexOfKey(gs, r.key) < |gs|
    ensures KeysOccur(rows + [r], AddRow(gs, r))
    ensures GroupContents(rows + [r], AddRow(gs, r))
  {
    ExistingGroupFacts(rows, gs, r);
    AddToExistingGroupOrder(rows, gs, r);
    var rows' := rows + [r];
    forall i | 0 <= i < |gs|
      ensures rows'[FirstIndex(rows', gs[i].key)] == rows[FirstIndex(rows, gs[i].key)]
    {
    }
  }

  lemma AddToExistingGroup(rows: seq<Row>, gs: seq<Group>, r: Row)
    requires IsGrouping(rows, gs)
    requires IndexOfKey(gs, r.key) < |gs|
    ensures IsGrouping(rows + [r], AddRow(gs, r))
  {
    AddToExistingGroupCovered(rows, gs, r);
    AddToExistingGroupOrder(rows, gs, r);
    AddToExistingGroupContents(rows, gs, r);
  }

  /** The grouping loop builds exactly the first-seen-ordered grouping. */
  lemma {:induction false} GroupRowsIsGrouping(rows: seq<Row>)
    ensures IsGrouping(rows, GroupRows(rows))
  {
    if rows != [] {
      var init := rows[..|rows| - 1];
      var r := rows[|rows| - 1];
      assert rows == init + [r];
      GroupRowsIsGrouping(init);
      var gs := GroupRows(init);
      if IndexOfKey(gs, r.key) == |gs| {
        AddNewGroup(init, gs, r);
      } else {
        AddToExistingGroup(init, gs, r);
      }
    }
  }

  function Counts(gs: seq<Group>): (cs: seq<int>)
    ensures |cs| == |gs|
  {
    seq(|gs|, i requires 0 <= i < |gs| => gs[i].count)
  }

  lemma {:induction false} SumIncrementAt(xs: seq<int>, i: nat)
    requires i < |xs|
    ensures Sum(xs[i := xs[i] + 1]) == Sum(xs) + 1
  {
    if i > 0 {
      assert xs[i := xs[i] + 1][1..] == xs[1..][i - 1 := xs[i] + 1];
      SumIncrementAt(xs[1..], i - 1);
    }
  }

  /** No row is lost: the group counts add up to the number of rows. */
  lemma {:induction false} GroupRowsConservesRows(rows: seq<Row>)
    ensures Sum(Counts(GroupRows(rows))) == |rows|
  {
    if rows != [] {
      var init := rows[..|rows| - 1];
      var r := rows[|rows| - 1];
      GroupRowsConservesRows(init);
      var gs := GroupRows(init);
      var i := IndexOfKey(gs, r.key);
      if i == |gs| {
        assert Counts(AddRow(gs, r)) == Counts(gs) + [1];
        SumAppend(Counts(gs), [1]);
      } else {
        assert Counts(AddRow(gs, r)) == Counts(gs)[i := Counts(gs)[i] + 1];
        SumIncrementAt(Counts(gs), i);
      }
    }
  }

  // ---------------------------------------------------------------------------
  // `_group_duplicate_addresses`
  // ---------------------------------------------------------------------------

  /** `next((n for n in names if n), "")`: the first non-empty name, or "". */
  function PrimaryName(names: seq<string>): (p: string)
    ensures p == "" <==> forall i :: 0 <= i < |names| ==> names[i] == ""
    ensures p != "" ==> exists i :: 0 <= i < |names| && names[i] == p && forall j :: 0 <= j < i ==> names[j] == ""
  {
    if names == [] then ""
    else if names[0] != "" then names[0]
    else
      var p := PrimaryName(names[1..]);
      assert p != "" ==> exists i :: 0 <= i < |names[1..]| && names[1..][i] == p && forall j :: 0 <= j < i ==> names[1..][j] == "";
      p
  }

  /** The four parallel lists `_group_duplicate_addresses` returns. */
  datatype Grouped = Grouped(
    addresses: seq<string>,
    primaryNames: seq<string>,
    allNames: seq<seq<string>>,
    packageCounts: seq<int>)

  /** `zip(addresses, client_names)` with each row's dedup key. */
  function KeyedRows(addresses: seq<string>, names: seq<string>): (rows: seq<Row>)
    ensures |rows| == if |addresses| <= |names| then |addresses| else |names|
  {
    var n := if |addresses| <= |names| then |addresses| else |names|;
    seq(n, i requires 0 <= i < n => Row(NormalizeForDedup(addresses[i]), addresses[i], names[i]))
  }

  function Flatten(gs: seq<Group>): (g: Grouped)
    ensures |g.addresses| == |gs| && |g.primaryNames| == |gs| && |g.allNames| == |gs| && |g.packageCounts| == |gs|
  {
    Grouped(
      seq(|gs|, i requires 0 <= i < |gs| => gs[i].address),
      seq(|gs|, i requires 0 <= i < |gs| => PrimaryName(gs[i].names)),
      seq(|gs|, i requires 0 <= i < |gs| => gs[i].names),
      Counts(gs))
  }

  /** `_group_duplicate_addresses`: four lists of equal length M, one entry
      per distinct key; counts add up to the number of zipped rows and each
      name list is as long as its count. */
  function GroupDuplicateAddresses(addresses: seq<string>, names: seq<string>): (g: Grouped)
    ensures |g.primaryNames| == |g.addresses| && |g.allNames| == |g.addresses| && |g.packageCounts| == |g.addresses|
    ensures |g.addresses| <= |KeyedRows(addresses, names)|
    ensures Sum(g.packageCounts) == |KeyedRows(addresses, names)|
    ensures forall i :: 0 <= i < |g.addresses| ==> |g.allNames[i]| == g.packageCounts[i]
    ensures forall i :: 0 <= i < |g.addresses| ==> g.primaryNames[i] == PrimaryName(g.allNames[i])
  {
    var rows := KeyedRows(addresses, names);
    var gs := GroupRows(rows);
    GroupRowsIsGrouping(rows);
    GroupRowsConservesRows(rows);
    GroupRowsLength(rows);
    Flatten(gs)
  }

  /** There are never more groups than rows. */
  lemma {:induction false} GroupRowsLength(rows: seq<Row>)
    ensures |GroupRows(rows)| <= |rows|
  {
    if rows != [] {
      GroupRowsLength(rows[..|rows| - 1]);
    }
  }

  /** Reference definition: the positions of the rows that are the first
      with their key, in row order. */
  function FirstOccurrences(rows: seq<Row>): seq<nat>
  {
    if rows == [] then []
    else
      var init := rows[..|rows| - 1];
      FirstOccurrences(init) + (if FirstIndex(init, rows[|rows| - 1].key) == |init| then [|init|] else [])
  }

  /** `FirstOccurrences` lists row positions in increasing order. */
  lemma {:induction false} FirstOccurrencesSorted(rows: seq<Row>)
    ensures forall i :: 0 <= i < |FirstOccurrences(rows)| ==> FirstOccurrences(rows)[i] < |rows|
    ensures forall i, j :: 0 <= i < j < |FirstOccurrences(rows)| ==> FirstOccurrences(rows)[i] < FirstOccurrences(rows)[j]
  {
    if rows != [] {
      var init := rows[..|rows| - 1];
      FirstOccurrencesSorted(init);
    }
  }

  /** Each listed row is the first with its key... */
  lemma {:induction false} FirstOccurrencesAreFirst(rows: seq<Row>)
    ensures forall i :: 0 <= i < |FirstOccurrences(rows)| ==>
              FirstOccurrences(rows)[i] < |rows| &&
              FirstIndex(rows, rows[FirstOccurrences(rows)[i]].key) == FirstOccurrences(rows)[i]
  {
    if rows != [] {
      var init := rows[..|rows| - 1];
      var r := rows[|rows| - 1];
      assert rows == init + [r];
      FirstOccurrencesAreFirst(init);
      FirstOccurrencesSorted(init);
      var fs0 := FirstOccurrences(init);
      var fs := FirstOccurrences(rows);
      forall i | 0 <= i < |fs0|
        ensures fs[i] == fs0[i]
        ensures FirstIndex(rows, rows[fs0[i]].key) == fs0[i]
      {
        assert rows[fs0[i]] == init[fs0[i]];
        FirstIndexAppend(init, r, init[fs0[i]].key);
      }
      FirstIndexAppend(init, r, r.key);
    }
  }

  /** ...and every row that is the first with its key is listed. */
  lemma {:induction false} FirstOccurrencesComplete(rows: seq<Row>)
    ensures forall q :: 0 <= q < |rows| && FirstIndex(rows, rows[q].key) == q ==> q in FirstOccurrences(rows)
  {
    if rows != [] {
      var init := rows[..|rows| - 1];
      var r := rows[|rows| - 1];
      assert rows == init + [r];
      FirstOccurrencesComplete(init);
      var fs0 := FirstOccurrences(init);
      var fs := FirstOccurrences(rows);
      FirstIndexAppend(init, r, r.key);
      forall q | 0 <= q < |rows| && FirstIndex(rows, rows[q].key) == q
        ensures q in fs
      {
        if q < |init| {
          assert rows[q] == init[q];
          FirstIndexAppend(init, r, init[q].key);
          assert q in fs0;
        }
      }
    }
  }

  /** Group i belongs to the row at position i of `FirstOccurrences`. */
  ghost predicate AlignedWithFirst(rows: seq<Row>)
  {
    && |GroupRows(rows)| == |FirstOccurrences(rows)|
    && forall i :: 0 <= i < |GroupRows(rows)| ==>
         FirstIndex(rows, GroupRows(rows)[i].key) == FirstOccurrences(rows)[i]
  }

  /** Appending a row with a key no earlier row has opens a group and a first
      occurrence together. */
  lemma AlignedNewKey(init: seq<Row>, r: Row)
    requires AlignedWithFirst(init)
    requires IndexOfKey(GroupRows(init), r.key) == |GroupRows(init)|
    ensures AlignedWithFirst(init + [r])
  {
    var rows := init + [r];
    assert rows[..|rows| - 1] == init;
    GroupRowsIsGrouping(init);
    var gs0 := GroupRows(init);
    var fs0 := FirstOccurrences(init);
    NewKeyAbsent(init, gs0, r);
    var gs := GroupRows(rows);
    assert gs == gs0 + [Group(r.key, r.address, [r.name], 1)];
    assert FirstOccurrences(rows) == fs0 + [|init|];
    forall i | 0 <= i < |gs|
      ensures FirstIndex(rows, gs[i].key) == FirstOccurrences(rows)[i]
    {
      if i < |gs0| {
        assert gs[i] == gs0[i];
        OtherKeyUnchanged(init, r, gs0[i].key);
      }
    }
  }

  /** Appending a row whose key already has a group changes neither the keys
      of the groups nor the first occurrences. */
  lemma AlignedOldKey(init: seq<Row>, r: Row)
    requires AlignedWithFirst(init)
    requires IndexOfKey(GroupRows(init), r.key) < |GroupRows(init)|
    ensures AlignedWithFirst(init + [r])
  {
    var rows := init + [r];
    assert rows[..|rows| - 1] == init;
    GroupRowsIsGrouping(init);
    var gs0 := GroupRows(init);
    var k := IndexOfKey(gs0, r.key);
    assert FirstIndex(init, r.key) < |init| by {
      assert gs0[k].key == r.key;
    }
    var gs := GroupRows(rows);
    assert FirstOccurrences(rows) == FirstOccurrences(init) + [];
    forall i | 0 <= i < |gs|
      ensures FirstIndex(rows, gs[i].key) == FirstOccurrences(rows)[i]
    {
      assert gs[i].key == gs0[i].key;
      OtherKeyUnchanged(init, r, gs0[i].key);
    }
  }

  /** The groups line up with `FirstOccurrences`: group i belongs to the
      i-th row that opens a new key. */
  lemma {:induction false} GroupRowsFirstOccurrences(rows: seq<Row>)
    ensures |GroupRows(rows)| == |FirstOccurrences(rows)|
    ensures forall i :: 0 <= i < |GroupRows(rows)| ==>
              FirstIndex(rows, GroupRows(rows)[i].key) == FirstOccurrences(rows)[i]
  {
    if rows != [] {
      var init := rows[..|rows| - 1];
      var r := rows[|rows| - 1];
      assert rows == init + [r];
      GroupRowsFirstOccurrences(init);
      if IndexOfKey(GroupRows(init), r.key) == |GroupRows(init)| {
        AlignedNewKey(init, r);
      } else {
        AlignedOldKey(init, r);
      }
    }
  }

  /** `GroupRows` against the reference: one group per first occurrence,
      holding that row's text and the names of every row with its key. */
  lemma GroupRowsReference(rows: seq<Row>)
    ensures var gs := GroupRows(rows);
            var fs := FirstOccurrences(rows);
            && |gs| == |fs|
            && forall i :: 0 <= i < |fs| ==>
                 && fs[i] < |rows|
                 && gs[i].address == rows[fs[i]].address
                 && gs[i].names == NamesWithKey(rows, rows[fs[i]].key)
                 && gs[i].count == |gs[i].names|
  {
    GroupRowsIsGrouping(rows);
    GroupRowsFirstOccurrences(rows);
    var gs := GroupRows(rows);
    assert KeysOccur(rows, gs) && GroupContents(rows, gs);
  }

  /** `_group_duplicate_addresses` against the reference: entry i is made from
      the i-th row whose dedup key no earlier row has; it keeps that row's
      original text and the names of all rows sharing the key, and counts
      them. */
  lemma GroupDuplicateAddressesSpec(addresses: seq<string>, names: seq<string>)
    ensures var rows := KeyedRows(addresses, names);
            var fs := FirstOccurrences(rows);
            var g := GroupDuplicateAddresses(addresses, names);
            && |g.addresses| == |fs|
            && forall i :: 0 <= i < |fs| ==>
                 && fs[i] < |rows|
                 && g.addresses[i] == rows[fs[i]].address
                 && g.allNames[i] == NamesWithKey(rows, rows[fs[i]].key)
                 && g.packageCounts[i] == |g.allNames[i]|
  {
    var rows := KeyedRows(addresses, names);
    var gs := GroupRows(rows);
    var g := GroupDuplicateAddresses(addresses, names);
    assert g == Flatten(gs);
    FlattenFields(gs);
    GroupRowsReference(rows);
  }

  /** What `Flatten` keeps of each group. */
  lemma FlattenFields(gs: seq<Group>)
    ensures var g := Flatten(gs);
            forall i :: 0 <= i < |gs| ==>
              && g.addresses[i] == gs[i].address
              && g.allNames[i] == gs[i].names
              && g.packageCounts[i] == gs[i].count
  {
  }

  lemma GroupRowsScenario(rows: seq<Row>, ka: string, kb: string, a: string, b: string)
    requires ka != kb
    requires |rows| == 3
    requires rows[0] == Row(ka, a, "Ana") && rows[1] == Row(ka, a, "") && rows[2] == Row(kb, b, "Luis")
    ensures GroupRows(rows) == [Group(ka, a, ["Ana", ""], 2), Group(kb, b, ["Luis"], 1)]
  {
    var g1 := [Group(ka, a, ["Ana"], 1)];
    var g2 := [Group(ka, a, ["Ana", ""], 2)];
    assert GroupRows(rows[..1]) == g1 by {
      assert rows[..1][..0] == [];
    }
    assert GroupRows(rows[..2]) == g2 by {
      assert rows[..2][..1] == rows[..1];
      assert rows[..2][1] == Row(ka, a, "");
      assert IndexOfKey(g1, ka) == 0;
      assert GroupRows(rows[..2]) == AddRow(g1, Row(ka, a, ""));
      assert ["Ana"] + [""] == ["Ana", ""];
      assert g1[0 := g1[0].(names := g1[0].names + [""], count := g1[0].count + 1)] == g2;
    }
    assert rows[..|rows| - 1] == rows[..2];
    assert IndexOfKey(g2, kb) == 1 by {
      assert IndexOfKey(g2[1..], kb) == 0;
    }
  }

  lemma FlattenScenario(ka: string, kb: string, a: string, b: string)
    ensures Flatten([Group(ka, a, ["Ana", ""], 2), Group(kb, b, ["Luis"], 1)])
         == Grouped([a, b], ["Ana", "Luis"], [["Ana", ""], ["Luis"]], [2, 1])
  {
    var gs := [Group(ka, a, ["Ana", ""], 2), Group(kb, b, ["Luis"], 1)];
    assert Counts(gs) == [2, 1];
    assert PrimaryName(["Ana", ""]) == "Ana";
    assert PrimaryName(["Luis"]) == "Luis";
  }

  lemma KeyedRowsScenario(a: string, b: string)
    ensures |KeyedRows([a, a, b], ["Ana", "", "Luis"])| == 3
    ensures KeyedRows([a, a, b], ["Ana", "", "Luis"])[0] == Row(NormalizeForDedup(a), a, "Ana")
    ensures KeyedRows([a, a, b], ["Ana", "", "Luis"])[1] == Row(NormalizeForDedup(a), a, "")
    ensures KeyedRows([a, a, b], ["Ana", "", "Luis"])[2] == Row(NormalizeForDedup(b), b, "Luis")
  {
  }

  /** Two rows with the same address merge into one stop that keeps both
      names (the empty one included) and counts two packages; a row with a
      different key becomes a second stop after it. */
  lemma GroupingScenario(a: string, b: string)
    requires NormalizeForDedup(a) != NormalizeForDedup(b)
    ensures GroupDuplicateAddresses([a, a, b], ["Ana", "", "Luis"])
         == Grouped([a, b], ["Ana", "Luis"], [["Ana", ""], ["Luis"]], [2, 1])
  {
    var ka, kb := NormalizeForDedup(a), NormalizeForDedup(b);
    var rows := KeyedRows([a, a, b], ["Ana", "", "Luis"]);
    KeyedRowsScenario(a, b);
    GroupRowsScenario(rows, ka, kb, a, b);
    FlattenScenario(ka, kb, a, b);
  }
}
