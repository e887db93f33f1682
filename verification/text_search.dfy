/** First-occurrence substring search, as `std::string::find` performs it. */
module TextSearch {
  import opened Values

  /** `needle` occurs in `s` starting at index `i`. */
  predicate OccursAt(s: string, needle: string, i: int) {
    0 <= i && i + |needle| <= |s| && s[i..i + |needle|] == needle
  }

  /** `needle` occurs somewhere in `s`. */
  predicate Occurs(s: string, needle: string) {
    exists i :: 0 <= i <= |s| && OccursAt(s, needle, i)
  }

  /** `i` is the smallest index at which `needle` occurs in `s`. */
  predicate IsFirstOccurrence(s: string, needle: string, i: int) {
    OccursAt(s, needle, i) && forall j :: 0 <= j < i ==> !OccursAt(s, needle, j)
  }

  /** Scans `s` for `needle` from index `from` on and returns the first match. */
  function FindFrom(s: string, needle: string, from: nat): (r: Option<nat>)
    decreases |s| - from
    ensures r.Some? ==> from <= r.value && OccursAt(s, needle, r.value)
    ensures r.Some? ==> forall j :: from <= j < r.value ==> !OccursAt(s, needle, j)
    ensures r.None? ==> forall j :: from <= j ==> !OccursAt(s, needle, j)
  {
    if from + |needle| > |s| then None
    else if s[from..from + |needle|] == needle then Some(from)
    else FindFrom(s, needle, from + 1)
  }

  /** `s.find(needle)`: the index of the first occurrence of `needle` in `s`,
      or `None` where the source gets `std::string::npos`. */
  function Find(s: string, needle: string): (r: Option<nat>)
    ensures r.Some? <==> Occurs(s, needle)
    ensures r.Some? ==> IsFirstOccurrence(s, needle, r.value)
    ensures r.Some? ==> r.value + |needle| <= |s|
  {
    FindFrom(s, needle, 0)
  }

  /** There is at most one first occurrence, so `Find` is pinned down by its contract. */
  lemma FirstOccurrenceUnique(s: string, needle: string, i: int, j: int)
    requires IsFirstOccurrence(s, needle, i) && IsFirstOccurrence(s, needle, j)
    ensures i == j
  {
  }

  /** An occurrence inside a prefix is an occurrence in the whole text, and the
      other way round for occurrences that end inside the prefix. */
  lemma OccursAtPrefix(p: string, q: string, needle: string, j: int)
    requires 0 <= j && j + |needle| <= |p|
    ensures OccursAt(p + q, needle, j) <==> OccursAt(p, needle, j)
  {
    assert (p + q)[j..j + |needle|] == p[j..j + |needle|];
  }

  /** Appending text after a match never moves the first match: a later
      duplicate of the needle cannot win over an earlier one. */
  lemma FindStableUnderAppend(p: string, q: string, needle: string)
    requires Find(p, needle).Some?
    ensures Find(p + q, needle) == Find(p, needle)
  {
    var i := Find(p, needle).value;
    OccursAtPrefix(p, q, needle, i);
    forall j | 0 <= j < i
      ensures !OccursAt(p + q, needle, j)
    {
      OccursAtPrefix(p, q, needle, j);
    }
    assert IsFirstOccurrence(p + q, needle, i);
    FirstOccurrenceUnique(p + q, needle, i, Find(p + q, needle).value);
  }
}
