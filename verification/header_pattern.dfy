/**
  The function-header pattern of the extraction script,
  `function\s+NAME\s*\([^)]*\)\s*\{`, for a NAME made of word characters.

  `HeaderAt` says which stretches of text the pattern matches, as a
  regular language; `HeaderEnd` is the greedy matcher a backtracking
  regular-expression engine behaves as for this pattern; `FindHeader`
  is the left-to-right search of `RegExp.prototype.exec`.
 */
module HeaderPattern {
  import opened Text

  const Keyword: string := "function"

  /** `code[p..e]` is `function`, white space (at least one), `name`,
      white space, `(`, characters other than `)`, `)`, white space and
      `{`; the `(` sits at `b`, the `)` at `c` and the name starts at `a`. */
  ghost predicate Layout(code: string, name: string, p: nat, a: nat, b: nat, c: nat, e: nat) {
    && p + |Keyword| < a
    && a + |name| <= b < c < e - 1
    && e <= |code|
    && code[p..p + |Keyword|] == Keyword
    && SpacesIn(code, p + |Keyword|, a)
    && code[a..a + |name|] == name
    && SpacesIn(code, a + |name|, b)
    && code[b] == '('
    && NoCloseParenIn(code, b + 1, c)
    && code[c] == ')'
    && SpacesIn(code, c + 1, e - 1)
    && code[e - 1] == '{'
  }

  /** The pattern matches exactly the text `code[p..e]`. */
  ghost predicate HeaderAt(code: string, name: string, p: nat, e: nat) {
    exists a: nat, b: nat, c: nat :: Layout(code, name, p, a, b, c, e)
  }

  /** `code[p..e]` is a match and no match starts earlier: the match
      `exec` reports. */
  ghost predicate FirstHeader(code: string, name: string, p: nat, e: nat) {
    && HeaderAt(code, name, p, e)
    && forall q: nat, f: nat :: q < p ==> !HeaderAt(code, name, q, f)
  }

  /** The pattern matches nowhere in `code`. */
  ghost predicate NoHeader(code: string, name: string) {
    forall p: nat, e: nat :: !HeaderAt(code, name, p, e)
  }

  /** The first index at or after `i` that is not white space. */
  function SkipSpaces(code: string, i: nat): (j: nat)
    requires i <= |code|
    ensures i <= j <= |code|
    ensures j < |code| ==> !IsSpace(code[j])
    decreases |code| - i
  {
    if i < |code| && IsSpace(code[i]) then SkipSpaces(code, i + 1) else i
  }

  /** The first index at or after `i` holding `)`, or `|code|`. */
  function SkipToCloseParen(code: string, i: nat): (j: nat)
    requires i <= |code|
    ensures i <= j <= |code|
    ensures j < |code| ==> code[j] == ')'
    decreases |code| - i
  {
    if i < |code| && code[i] != ')' then SkipToCloseParen(code, i + 1) else i
  }

  /** Everything `SkipSpaces` passes over is white space. */
  lemma {:induction false} SkipSpacesSpans(code: string, i: nat)
    requires i <= |code|
    ensures SpacesIn(code, i, SkipSpaces(code, i))
    decreases |code| - i
  {
    if i < |code| && IsSpace(code[i]) {
      SkipSpacesSpans(code, i + 1);
    }
  }

  /** Nothing `SkipToCloseParen` passes over is `)`. */
  lemma {:induction false} SkipToCloseParenSpans(code: string, i: nat)
    requires i <= |code|
    ensures NoCloseParenIn(code, i, SkipToCloseParen(code, i))
    decreases |code| - i
  {
    if i < |code| && code[i] != ')' {
      SkipToCloseParenSpans(code, i + 1);
    }
  }

  /** The end of the match starting at `p`, if there is one. Each
      greedy repetition takes the longest run available: giving back a
      character never helps, because the character after each run
      (the name's first letter, `(`, `)`, `{`) cannot belong to it. */
  function HeaderEnd(code: string, name: string, p: nat): (r: Option<nat>)
    requires p <= |code|
    ensures r.Some? ==> p + |Keyword| < r.value <= |code|
    ensures r.Some? ==> code[p..p + |Keyword|] == Keyword && code[r.value - 1] == '{'
  {
    if p + |Keyword| <= |code| && code[p..p + |Keyword|] == Keyword then
      var a := SkipSpaces(code, p + |Keyword|);
      if a > p + |Keyword| && a + |name| <= |code| && code[a..a + |name|] == name then
        var b := SkipSpaces(code, a + |name|);
        if b < |code| && code[b] == '(' then
          var c := SkipToCloseParen(code, b + 1);
          if c < |code| then
            var d := SkipSpaces(code, c + 1);
            if d < |code| && code[d] == '{' then Some(d + 1) else None
          else None
        else None
      else None
    else None
  }

  /** A maximal run ends where `SkipSpaces` stops. */
  lemma {:induction false} SkipSpacesStopsAt(code: string, i: nat, j: nat)
    requires i <= j <= |code|
    requires SpacesIn(code, i, j)
    requires j < |code| ==> !IsSpace(code[j])
    ensures SkipSpaces(code, i) == j
    decreases j - i
  {
    if i < j {
      SkipSpacesStopsAt(code, i + 1, j);
    }
  }

  lemma {:induction false} SkipToCloseParenStopsAt(code: string, i: nat, j: nat)
    requires i <= j < |code|
    requires NoCloseParenIn(code, i, j)
    requires code[j] == ')'
    ensures SkipToCloseParen(code, i) == j
    decreases j - i
  {
    if i < j {
      SkipToCloseParenStopsAt(code, i + 1, j);
    }
  }

  /** The positions the greedy matcher passes through on its way to a
      reported end `e`: name at `a`, `(` at `b`, `)` at `c`, `{` at `e - 1`. */
  lemma HeaderEndStages(code: string, name: string, p: nat) returns (a: nat, b: nat, c: nat, e: nat)
    requires p <= |code|
    requires HeaderEnd(code, name, p).Some?
    ensures e == HeaderEnd(code, name, p).value
    ensures p + |Keyword| <= |code| && code[p..p + |Keyword|] == Keyword
    ensures a == SkipSpaces(code, p + |Keyword|) && a > p + |Keyword|
    ensures a + |name| <= |code| && code[a..a + |name|] == name
    ensures b == SkipSpaces(code, a + |name|) && b < |code| && code[b] == '('
    ensures c == SkipToCloseParen(code, b + 1) && c < |code|
    ensures e - 1 == SkipSpaces(code, c + 1) && e - 1 < |code| && code[e - 1] == '{'
  {
    a := SkipSpaces(code, p + |Keyword|);
    b := SkipSpaces(code, a + |name|);
    c := SkipToCloseParen(code, b + 1);
    e := SkipSpaces(code, c + 1) + 1;
  }

  /** Every end the greedy matcher reports is the end of a match. */
  lemma HeaderEndSound(code: string, name: string, p: nat)
    requires p <= |code|
    requires HeaderEnd(code, name, p).Some?
    ensures HeaderAt(code, name, p, HeaderEnd(code, name, p).value)
  {
    var a, b, c, e := HeaderEndStages(code, name, p);
    SkipSpacesSpans(code, p + |Keyword|);
    SkipSpacesSpans(code, a + |name|);
    SkipToCloseParenSpans(code, b + 1);
    SkipSpacesSpans(code, c + 1);
    assert Layout(code, name, p, a, b, c, e);
  }

  /** In a match, each white-space run and the parameter text are as
      long as they can be, so the greedy skips land on the layout's own
      positions. */
  lemma LayoutIsGreedy(code: string, name: string, p: nat, a: nat, b: nat, c: nat, e: nat)
    requires IsFunctionName(name)
    requires Layout(code, name, p, a, b, c, e)
    ensures SkipSpaces(code, p + |Keyword|) == a
    ensures SkipSpaces(code, a + |name|) == b
    ensures SkipToCloseParen(code, b + 1) == c
    ensures SkipSpaces(code, c + 1) == e - 1
  {
    assert code[a] == name[0] by {
      assert code[a..a + |name|][0] == code[a];
    }
    WordCharIsNotSpace(name[0]);
    SkipSpacesStopsAt(code, p + |Keyword|, a);
    SkipSpacesStopsAt(code, a + |name|, b);
    SkipToCloseParenStopsAt(code, b + 1, c);
    SkipSpacesStopsAt(code, c + 1, e - 1);
  }

  /** Every match is found by the greedy matcher, with its own end: the
      pattern has at most one match at each start index. */
  lemma HeaderEndComplete(code: string, name: string, p: nat, e: nat)
    requires IsFunctionName(name)
    requires p <= |code|
    requires HeaderAt(code, name, p, e)
    ensures HeaderEnd(code, name, p) == Some(e)
  {
    var a: nat, b: nat, c: nat :| Layout(code, name, p, a, b, c, e);
    LayoutIsGreedy(code, name, p, a, b, c, e);
  }

  /** The matcher and the pattern agree at every start index. */
  lemma HeaderEndIsMatch(code: string, name: string, p: nat, e: nat)
    requires IsFunctionName(name)
    requires p <= |code|
    ensures HeaderEnd(code, name, p) == Some(e) <==> HeaderAt(code, name, p, e)
  {
    if HeaderEnd(code, name, p) == Some(e) {
      HeaderEndSound(code, name, p);
    }
    if HeaderAt(code, name, p, e) {
      HeaderEndComplete(code, name, p, e);
    }
  }

  /** A match lies within the text: `p < e <= |code|`. */
  lemma HeaderInsideText(code: string, name: string, p: nat, e: nat)
    requires HeaderAt(code, name, p, e)
    ensures p < e <= |code|
  {
  }

  /** The matcher's result at every start index `0..|code|`. */
  function MatchEnds(code: string, name: string): (ms: seq<Option<nat>>)
    ensures |ms| == |code| + 1
    ensures forall q :: 0 <= q <= |code| ==> ms[q] == HeaderEnd(code, name, q)
  {
    seq(|code| + 1, q requires 0 <= q <= |code| => HeaderEnd(code, name, q))
  }

  /** The first index at or after `from` holding a result, with that result. */
  function FirstPresent(ms: seq<Option<nat>>, from: nat): (r: Option<(nat, nat)>)
    requires from <= |ms|
    ensures r.Some? ==> from <= r.value.0 < |ms| && ms[r.value.0] == Some(r.value.1)
    ensures r.Some? ==> forall q :: from <= q < r.value.0 ==> ms[q].None?
    ensures r.None? ==> forall q :: from <= q < |ms| ==> ms[q].None?
    decreases |ms| - from
  {
    if from == |ms| then None
    else
      match ms[from]
      case Some(e) => Some((from, e))
      case None => FirstPresent(ms, from + 1)
  }

  /** The search of `exec`: the first start index at or after `from` where
      the pattern matches, with the end of that match. */
  function FindHeader(code: string, name: string, from: nat): (r: Option<(nat, nat)>)
    requires from <= |code|
    ensures r.Some? ==> from <= r.value.0 <= |code|
    ensures r.Some? ==> HeaderEnd(code, name, r.value.0) == Some(r.value.1)
  {
    FirstPresent(MatchEnds(code, name), from)
  }

  /** The search skips only start indices where the matcher fails, and
      gives up only when it fails everywhere from `from` on. */
  lemma FindHeaderSkipsOnlyFailures(code: string, name: string, from: nat)
    requires from <= |code|
    ensures FindHeader(code, name, from).Some? ==>
      forall q :: from <= q < FindHeader(code, name, from).value.0 ==> HeaderEnd(code, name, q).None?
    ensures FindHeader(code, name, from).None? ==>
      forall q :: from <= q <= |code| ==> HeaderEnd(code, name, q).None?
  {
    var ms := MatchEnds(code, name);
    assert FindHeader(code, name, from) == FirstPresent(ms, from);
  }

  /** When some match `code[q..f]` exists, the search from 0 finds a
      match, and it starts no later than `q`. */
  lemma {:induction false} MatchNotBeforeFound(code: string, name: string, q: nat, f: nat)
    requires IsFunctionName(name)
    requires HeaderAt(code, name, q, f)
    ensures FindHeader(code, name, 0).Some?
    ensures FindHeader(code, name, 0).value.0 <= q
  {
    HeaderInsideText(code, name, q, f);
    HeaderEndComplete(code, name, q, f);
    FindHeaderSkipsOnlyFailures(code, name, 0);
  }

  /** The search returns the leftmost match of the pattern, and finds
      nothing only when the pattern matches nowhere. */
  lemma FindHeaderIsFirst(code: string, name: string)
    requires IsFunctionName(name)
    ensures FindHeader(code, name, 0).Some? ==>
      FirstHeader(code, name, FindHeader(code, name, 0).value.0, FindHeader(code, name, 0).value.1)
    ensures FindHeader(code, name, 0).None? <==> NoHeader(code, name)
  {
    var r := FindHeader(code, name, 0);
    forall q: nat, f: nat | HeaderAt(code, name, q, f)
      ensures r.Some? && r.value.0 <= q
    {
      MatchNotBeforeFound(code, name, q, f);
    }
    if r.Some? {
      HeaderEndSound(code, name, r.value.0);
    }
  }
}
