/**
 * Leftmost search, as `re.search` performs it, and the substring facts the
 * keyword tests rely on. A pattern is given by a matcher: at a position it
 * yields the end of the match the regular-expression engine would settle on,
 * or None when the pattern cannot match there.
 */
module Scan {
  import opened Common
  import opened Text

  /** The match `s[start:end]` of a search. */
  datatype Span = Span(start: nat, end: nat)

  /** `re.search`: the first position from `from` on where `m` matches. */
  function Search(s: string, m: (string, nat) -> Option<nat>, from: nat): (r: Option<Span>)
    ensures r.Some? ==> from <= r.value.start <= |s| && m(s, r.value.start) == Some(r.value.end)
    ensures r.Some? ==> forall i :: from <= i < r.value.start ==> m(s, i).None?
    ensures r.None? ==> forall i :: from <= i <= |s| ==> m(s, i).None?
    decreases |s| + 1 - from
  {
    if from > |s| then None
    else if m(s, from).Some? then Some(Span(from, m(s, from).value))
    else Search(s, m, from + 1)
  }

  /** A search finds the first matching position, whatever lies before it. */
  lemma {:induction false} SearchFinds(s: string, m: (string, nat) -> Option<nat>, from: nat, k: nat)
    requires from <= k <= |s| && m(s, k).Some?
    requires forall i :: from <= i < k ==> m(s, i).None?
    ensures Search(s, m, from) == Some(Span(k, m(s, k).value))
    decreases k - from
  {
    if from < k {
      SearchFinds(s, m, from + 1, k);
    }
  }

  /** A search that fails leaves no position where the pattern matches, and one
      that succeeds names such a position. */
  lemma SearchNoneEverywhere(s: string, m: (string, nat) -> Option<nat>)
    requires Search(s, m, 0).None?
    ensures !exists i :: 0 <= i <= |s| && m(s, i).Some?
  {
  }

  lemma SearchSomeMatches(s: string, m: (string, nat) -> Option<nat>, sp: Span)
    requires Search(s, m, 0) == Some(sp)
    ensures exists i :: 0 <= i <= |s| && m(s, i).Some?
  {
    assert m(s, sp.start).Some?;
  }

  // ---------------------------------------------------------------------------
  // Digit runs

  /** The number of consecutive digits of `s` from position `i`. */
  function DigitRun(s: string, i: nat): (n: nat)
    ensures i <= |s| ==> i + n <= |s|
    ensures forall k :: i <= k < i + n ==> k < |s| && IsDigit(s[k])
    ensures i + n < |s| ==> !IsDigit(s[i + n])
    decreases |s| - i
  {
    if i < |s| && IsDigit(s[i]) then 1 + DigitRun(s, i + 1) else 0
  }

  lemma DigitRunStep(s: string, i: nat)
    requires i < |s|
    ensures DigitRun(s, i) == if IsDigit(s[i]) then DigitRun(s, i + 1) + 1 else 0
  {
  }

  // ---------------------------------------------------------------------------
  // Substrings

  /** `any(t in text for t in terms)` */
  predicate MentionsAny(text: string, terms: seq<string>)
  {
    exists k :: 0 <= k < |terms| && Contains(text, terms[k])
  }

  /** A string contains every piece of what it contains. */
  lemma ContainsInfix(s: string, pat: string, a: nat, b: nat)
    requires a <= b <= |pat|
    requires Contains(s, pat)
    ensures Contains(s, pat[a..b])
  {
    var i :| 0 <= i <= |s| - |pat| && OccursAt(s, i, pat);
    assert s[i..i + |pat|] == pat;
    forall k | 0 <= k < b - a ensures s[i + a..i + b][k] == pat[a..b][k] {
      assert s[i + a + k] == s[i..i + |pat|][a + k];
    }
    assert s[i + a..i + b] == pat[a..b];
    assert OccursAt(s, i + a, pat[a..b]);
  }
}
