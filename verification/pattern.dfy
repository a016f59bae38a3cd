/** `re.search(r"([가-힣\s]+)\s?x\s?(\d+)", text)`: the pattern the collector uses to find an
    item name and a count in OCR text, as an explicit matcher proved against a declarative
    description of the match Python's backtracking engine returns. */
module Pattern {
  import opened Wrappers
  import opened Text

  /** A match of the pattern in `s`: group 1 (the name) is `s[start..nameEnd]`, group 2 (the
      count) is `s[countStart..end]`, and the whole match is `s[start..end]`. */
  datatype Span = Span(start: nat, nameEnd: nat, countStart: nat, end: nat)

  /** `\s?x\s?`: what may stand between the two groups. */
  predicate IsSeparator(g: string)
  {
    || g == "x"
    || (|g| == 2 && ((IsSpace(g[0]) && g[1] == 'x') || (g[0] == 'x' && IsSpace(g[1]))))
    || (|g| == 3 && IsSpace(g[0]) && g[1] == 'x' && IsSpace(g[2]))
  }

  /** The pattern matches `s[m.start..m.end]` with these group spans. */
  ghost predicate Matches(s: string, m: Span)
  {
    && m.start < m.nameEnd < m.countStart < m.end <= |s|
    && (forall k :: m.start <= k < m.nameEnd ==> IsNameChar(s[k]))
    && IsSeparator(s[m.nameEnd..m.countStart])
    && (forall k :: m.countStart <= k < m.end ==> IsDigit(s[k]))
  }

  /** The order in which the backtracking engine tries matches: the leftmost start first;
      then, all quantifiers being greedy, the longest group 1; then the match whose optional
      spaces are taken rather than skipped (a later `countStart`); then the longest group 2.
      With the same `nameEnd` and `countStart` the `x` cannot sit in two places, since `" x"`
      and `"x "` cannot both fit the same two characters, so these four positions decide. */
  ghost predicate Precedes(a: Span, b: Span)
  {
    || a.start < b.start
    || (a.start == b.start && a.nameEnd > b.nameEnd)
    || (a.start == b.start && a.nameEnd == b.nameEnd && a.countStart > b.countStart)
    || (a.start == b.start && a.nameEnd == b.nameEnd && a.countStart == b.countStart && a.end > b.end)
  }

  /** The match `re.search` reports: a match that no other match is tried before. */
  ghost predicate IsLeftmostFirst(s: string, m: Span)
  {
    Matches(s, m) && forall m' :: Matches(s, m') ==> !Precedes(m', m)
  }

  /** There is at most one such match. */
  lemma LeftmostFirstIsUnique(s: string, a: Span, b: Span)
    requires IsLeftmostFirst(s, a) && IsLeftmostFirst(s, b)
    ensures a == b
  {
  }

  /** The end of the longest run of name characters starting at `i`. */
  function NameRunEnd(s: string, i: nat): (e: nat)
    requires i <= |s|
    ensures i <= e <= |s|
    ensures forall k :: i <= k < e ==> IsNameChar(s[k])
    ensures e == |s| || !IsNameChar(s[e])
    decreases |s| - i
  {
    if i < |s| && IsNameChar(s[i]) then NameRunEnd(s, i + 1) else i
  }

  /** The end of the longest run of digits starting at `i`. */
  function DigitRunEnd(s: string, i: nat): (e: nat)
    requires i <= |s|
    ensures i <= e <= |s|
    ensures forall k :: i <= k < e ==> IsDigit(s[k])
    ensures e == |s| || !IsDigit(s[e])
    decreases |s| - i
  {
    if i < |s| && IsDigit(s[i]) then DigitRunEnd(s, i + 1) else i
  }

  /** Where group 2 starts once the `x` is found at `x`: the second `\s?` takes a space if
      there is one. */
  function CountStart(s: string, x: nat): nat
  {
    if x + 1 < |s| && IsSpace(s[x + 1]) then x + 2 else x + 1
  }

  /** After an `x` at `x`, the text up to `CountStart` is a separator `x\s?`. */
  lemma SeparatorAt(s: string, x: nat)
    requires x < |s| && s[x] == 'x' && CountStart(s, x) <= |s|
    ensures IsSeparator(s[x..CountStart(s, x)])
  {
    var g := s[x..CountStart(s, x)];
    if CountStart(s, x) == x + 2 {
      assert g == [s[x], s[x + 1]];
    } else {
      assert g == [s[x]];
    }
  }

  /** The pattern anchored at `i`. Group 1 takes the whole run of name characters, since the
      `x` that must follow cannot be one; giving back characters of the run never helps, as
      the `x` would then have to be a name character. What it finds is a match starting at
      `i`. */
  function MatchAt(s: string, i: nat): (r: Option<Span>)
    requires i <= |s|
    ensures r.Some? ==> Matches(s, r.value) && r.value.start == i
  {
    if i < |s| && IsNameChar(s[i]) then
      var x := NameRunEnd(s, i);
      if x < |s| && s[x] == 'x' then
        var c := CountStart(s, x);
        if c < |s| && IsDigit(s[c]) then
          SeparatorAt(s, x);
          Some(Span(i, x, c, DigitRunEnd(s, c)))
        else None
      else None
    else None
  }

  /** Every match starting at `m.start` has its `x` at the end of the run of name characters
      starting there, and group 2 starting where `CountStart` says. */
  lemma MatchShape(s: string, m: Span)
    requires Matches(s, m)
    ensures var x := NameRunEnd(s, m.start);
      && x < |s| && s[x] == 'x' && (x == m.nameEnd || (x == m.nameEnd + 1 && IsSpace(s[m.nameEnd])))
      && m.countStart == CountStart(s, x)
      && m.end <= DigitRunEnd(s, m.countStart)
  {
    var g := s[m.nameEnd..m.countStart];
    var x := if g[0] == 'x' then m.nameEnd else m.nameEnd + 1;
    assert s[x] == 'x' && !IsNameChar(s[x]);
    assert forall k :: m.start <= k < x ==> IsNameChar(s[k]) by {
      forall k | m.start <= k < x ensures IsNameChar(s[k]) {
        if k == m.nameEnd { assert s[k] == g[0]; }
      }
    }
    assert NameRunEnd(s, m.start) == x;
    if x + 1 < m.countStart {
      assert s[x + 1] == g[x + 1 - m.nameEnd];
    } else {
      assert IsDigit(s[x + 1]);
    }
  }

  /** The greedy match at `i` is tried before every other match at `i`; there is none exactly
      when no match starts at `i`. */
  lemma MatchAtIsFirst(s: string, i: nat)
    requires i <= |s|
    ensures forall m :: Matches(s, m) && m.start == i ==>
      MatchAt(s, i).Some? && !Precedes(m, MatchAt(s, i).value)
  {
    forall m | Matches(s, m) && m.start == i
      ensures MatchAt(s, i).Some? && !Precedes(m, MatchAt(s, i).value)
    {
      MatchShape(s, m);
    }
  }

  /** `re.search` from position `i` on: the first start position at which the pattern matches. */
  function SearchFrom(s: string, i: nat): (r: Option<Span>)
    requires i <= |s|
    ensures r.None? ==> forall m :: Matches(s, m) ==> m.start < i
    ensures r.Some? ==> Matches(s, r.value) && i <= r.value.start
    ensures r.Some? ==> forall m :: Matches(s, m) && i <= m.start ==> !Precedes(m, r.value)
    decreases |s| - i
  {
    MatchAtIsFirst(s, i);
    if i == |s| then None
    else if MatchAt(s, i).Some? then MatchAt(s, i)
    else SearchFrom(s, i + 1)
  }

  /** `re.search(pattern, s)`: no result exactly when no substring of `s` matches the pattern;
      otherwise the one match the backtracking engine finds first. */
  function Search(s: string): (r: Option<Span>)
    ensures r.None? <==> forall m :: !Matches(s, m)
    ensures r.Some? ==> IsLeftmostFirst(s, r.value)
  {
    SearchFrom(s, 0)
  }
}
