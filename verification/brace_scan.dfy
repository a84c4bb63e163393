/**
  The closing-brace scan of `extractFunction`: starting just after the
  header's `{` with one brace open, walk forward one character at a
  time, counting `{` up and `}` down, and stop where the count reaches
  zero. Only the two brace characters matter; strings, comments and
  regular-expression literals in the scanned code are not recognised.
 */
module BraceScan {
  import opened Text

  /** How one character moves the brace count. */
  function Delta(c: char): int {
    if c == '{' then 1 else if c == '}' then -1 else 0
  }

  /** The number of braces open after reading `code[e..j]`, having
      started with one open: one plus the `{` in it minus the `}` in it. */
  ghost function OpenDepth(code: string, e: nat, j: nat): int
    requires e <= j <= |code|
  {
    1 + (multiset(code[e..j])['{'] as int) - (multiset(code[e..j])['}'] as int)
  }

  /** The brace that closes the one open at `e` ends just before `k`:
      the count is zero after `code[e..k]` and positive at every
      earlier point. */
  ghost predicate ClosesAt(code: string, e: nat, k: nat) {
    && e <= k <= |code|
    && OpenDepth(code, e, k) == 0
    && forall j :: e <= j < k ==> OpenDepth(code, e, j) > 0
  }

  /** The count stays positive to the end of the code. */
  ghost predicate Unclosed(code: string, e: nat)
    requires e <= |code|
  {
    forall j :: e <= j <= |code| ==> OpenDepth(code, e, j) > 0
  }

  /** The `while` loop of the script, as a recursion on the index `i`
      and the brace count `depth`; the result is the final index when
      the count ended at zero, and `None` otherwise. */
  function CloseFrom(code: string, i: nat, depth: int): (r: Option<nat>)
    requires i <= |code|
    ensures r.Some? ==> i <= r.value <= |code|
    ensures r.Some? && depth > 0 ==> i < r.value && code[r.value - 1] == '}'
    decreases |code| - i
  {
    if i < |code| && depth > 0 then CloseFrom(code, i + 1, depth + Delta(code[i]))
    else if depth == 0 then Some(i)
    else None
  }

  /** Reading one more character moves the count by that character's `Delta`. */
  lemma OpenDepthStep(code: string, e: nat, j: nat)
    requires e <= j < |code|
    ensures OpenDepth(code, e, j + 1) == OpenDepth(code, e, j) + Delta(code[j])
  {
    assert code[e..j + 1] == code[e..j] + [code[j]];
  }

  /** Nothing read yet: one brace open. */
  lemma OpenDepthStart(code: string, e: nat)
    requires e <= |code|
    ensures OpenDepth(code, e, e) == 1
  {
    assert code[e..e] == [];
  }

  /** The loop invariant of the scan: while every count so far was
      positive and `depth` is the current count, the scan from `i` ends
      at the closing point exactly when there is one, and fails exactly
      when the count never reaches zero. */
  lemma {:induction false} CloseFromInvariant(code: string, e: nat, i: nat, depth: int)
    requires e <= i <= |code|
    requires depth == OpenDepth(code, e, i)
    requires forall j :: e <= j < i ==> OpenDepth(code, e, j) > 0
    ensures forall k: nat :: CloseFrom(code, i, depth) == Some(k) <==> ClosesAt(code, e, k)
    ensures CloseFrom(code, i, depth).None? <==> Unclosed(code, e)
    decreases |code| - i
  {
    if i < |code| && depth > 0 {
      OpenDepthStep(code, e, i);
      CloseFromInvariant(code, e, i + 1, depth + Delta(code[i]));
    } else if depth == 0 {
      assert ClosesAt(code, e, i);
    } else {
      if i == e {
        OpenDepthStart(code, e);
      } else {
        OpenDepthStep(code, e, i - 1);
      }
      assert depth > 0;
    }
  }

  /** The scan from just after the header's `{` finds the closing brace
      when there is one and reports `None` exactly when the code ends with
      the count still positive. */
  lemma CloseFromSpec(code: string, e: nat)
    requires e <= |code|
    ensures forall k: nat :: CloseFrom(code, e, 1) == Some(k) <==> ClosesAt(code, e, k)
    ensures CloseFrom(code, e, 1).None? <==> Unclosed(code, e)
  {
    OpenDepthStart(code, e);
    CloseFromInvariant(code, e, e, 1);
  }

  /** The closing point consumes at least one character and the last one
      it consumes is the `}` that brought the count to zero. */
  lemma ClosesAtBrace(code: string, e: nat, k: nat)
    requires ClosesAt(code, e, k)
    ensures e < k
    ensures code[k - 1] == '}'
  {
    OpenDepthStart(code, e);
    OpenDepthStep(code, e, k - 1);
  }

  /** There is at most one closing point. */
  lemma ClosesAtUnique(code: string, e: nat, k1: nat, k2: nat)
    requires ClosesAt(code, e, k1) && ClosesAt(code, e, k2)
    ensures k1 == k2
  {
  }

  /** Two texts of the same length with braces in the same places from
      `i` on scan alike: every other character is ignored. */
  lemma {:induction false} CloseFromSeesOnlyBraces(code1: string, code2: string, i: nat, depth: int)
    requires i <= |code1| == |code2|
    requires forall j :: i <= j < |code1| ==> Delta(code1[j]) == Delta(code2[j])
    ensures CloseFrom(code1, i, depth) == CloseFrom(code2, i, depth)
    decreases |code1| - i
  {
    if i < |code1| && depth > 0 {
      CloseFromSeesOnlyBraces(code1, code2, i + 1, depth + Delta(code1[i]));
    }
  }
}
