/**
 The few Arduino `String` primitives the parking controller relies on, over
 text modelled as `seq<char>`. An Arduino `String` is a buffer of bytes, and
 each `char` here stands for one byte of that buffer: `|s|` is `length()`,
 positions are byte offsets, and a character that takes several bytes in
 the input is modelled as that many `char`s. Positions are indices into the
 text; `-1` is the "not found" answer the Arduino library uses.

 `IndexOf` and `LastIndexOf` are computed by a scan, the way the library's
 `strstr` loop does, and their contracts state the result declaratively in
 terms of `OccursAt`.
 */
module ArduinoString {

  /** The pattern `p` occurs in `s` starting at position `i`. */
  predicate OccursAt(s: string, p: string, i: int)
  {
    0 <= i && i + |p| <= |s| && s[i..i + |p|] == p
  }

  /** An occurrence matches the pattern character by character. */
  lemma OccurrenceChars(s: string, p: string, i: int)
    requires OccursAt(s, p, i)
    ensures forall t :: 0 <= t < |p| ==> s[i + t] == p[t]
  {
  }

  /** Matching character by character is an occurrence. */
  lemma OccursFromChars(s: string, p: string, i: int)
    requires 0 <= i && i + |p| <= |s|
    requires forall t :: 0 <= t < |p| ==> s[i + t] == p[t]
    ensures OccursAt(s, p, i)
  {
    assert s[i..i + |p|] == p;
  }

  /** Where a pattern occurs, so does each of its prefixes. */
  lemma OccursPrefix(s: string, p: string, i: int, n: nat)
    requires OccursAt(s, p, i) && n <= |p|
    ensures OccursAt(s, p[..n], i)
  {
    assert s[i..i + n] == s[i..i + |p|][..n];
  }

  /** Reading `s` from position `k` gives the word `w` and then a quote. */
  predicate WordUpToQuote(s: string, k: int, w: string)
  {
    0 <= k && k + |w| < |s| && s[k..k + |w|] == w && s[k + |w|] == '"'
  }

  /** `p` occurs somewhere in `s`. */
  ghost predicate Contains(s: string, p: string)
  {
    exists i :: OccursAt(s, p, i)
  }

  /** `m` is the position of the first occurrence of `p` in `s`. */
  ghost predicate IsFirstOccurrence(s: string, p: string, m: int)
  {
    OccursAt(s, p, m) && forall j :: 0 <= j < m ==> !OccursAt(s, p, j)
  }

  /** `k` is the position of the last occurrence of `p` in `s` that starts at or before `m`. */
  ghost predicate IsLastAtOrBefore(s: string, p: string, k: int, m: int)
  {
    k <= m && OccursAt(s, p, k) && forall j :: k < j <= m ==> !OccursAt(s, p, j)
  }

  /** There is only one first occurrence. */
  lemma FirstOccurrenceUnique(s: string, p: string, m: int)
    requires IsFirstOccurrence(s, p, m)
    ensures forall m' :: IsFirstOccurrence(s, p, m') ==> m' == m
  {
  }

  /** There is only one last occurrence at or before a given position. */
  lemma LastAtOrBeforeUnique(s: string, p: string, k: int, m: int)
    requires IsLastAtOrBefore(s, p, k, m)
    ensures forall k' :: IsLastAtOrBefore(s, p, k', m) ==> k' == k
  {
  }

  /** The set of positions at or after `from` where `p` occurs in `s`. */
  ghost function Occurrences(s: string, p: string, from: nat): set<int>
  {
    set i | from <= i < |s| && OccursAt(s, p, i)
  }

  /**
   `s.indexOf(p, from)`: the first position at or after `from` where `p`
   occurs, or -1. The library answers -1 straight away when `from` is not
   below the length of `s`, before searching.
   */
  function IndexOf(s: string, p: string, from: nat): (r: int)
    ensures r == -1 || (from <= r < |s| && OccursAt(s, p, r))
    ensures r != -1 ==> forall j :: from <= j < r ==> !OccursAt(s, p, j)
    ensures r == -1 <==> forall j :: from <= j < |s| ==> !OccursAt(s, p, j)
    decreases |s| - from
  {
    if from >= |s| then -1
    else if OccursAt(s, p, from) then from
    else IndexOf(s, p, from + 1)
  }

  /** The last position at or before `k` where `p` occurs in `s`, or -1. */
  function LastAtOrBefore(s: string, p: string, k: nat): (r: int)
    ensures r == -1 || IsLastAtOrBefore(s, p, r, k)
    ensures r == -1 <==> forall j :: 0 <= j <= k ==> !OccursAt(s, p, j)
  {
    if OccursAt(s, p, k) then k
    else if k == 0 then -1
    else LastAtOrBefore(s, p, k - 1)
  }

  /**
   `s.lastIndexOf(p, from)`: the last position at or before `from` where `p`
   occurs, or -1. The library answers -1 for an empty pattern, an empty text
   or a pattern longer than the text, and lowers `from` to the last index of
   the text when it lies beyond it.
   */
  function LastIndexOf(s: string, p: string, from: nat): (r: int)
    ensures r == -1 || IsLastAtOrBefore(s, p, r, from)
    ensures r == -1 <==> |p| == 0 || forall j :: 0 <= j <= from ==> !OccursAt(s, p, j)
  {
    if |p| == 0 || |s| == 0 || |p| > |s| then -1
    else LastAtOrBefore(s, p, if from < |s| then from else |s| - 1)
  }

  /**
   `s.substring(left, right)`: the bounds are swapped when out of order, the
   result is empty when `left` is past the end, and `right` is lowered to the
   length of `s`.
   */
  function Substring(s: string, left: nat, right: nat): (r: string)
    ensures left <= right <= |s| ==> r == s[left..right]
    ensures var lo := if left <= right then left else right;
            var hi := if left <= right then right else left;
            (lo >= |s| ==> r == "")
            && (lo < |s| ==> r == s[lo..if hi <= |s| then hi else |s|])
    ensures |r| <= |s|
  {
    if left > right then Substring(s, right, left)
    else if left >= |s| then ""
    else s[left..if right <= |s| then right else |s|]
  }

  /** The number of positions at or after `from` where `p` occurs in `s`, counted by a scan. */
  function CountFrom(s: string, p: string, from: nat): nat
    decreases |s| - from
  {
    if from >= |s| then 0
    else (if OccursAt(s, p, from) then 1 else 0) + CountFrom(s, p, from + 1)
  }

  /** The scan counts exactly the positions where `p` occurs. */
  lemma {:induction false} CountFromOccurrences(s: string, p: string, from: nat)
    ensures CountFrom(s, p, from) == |Occurrences(s, p, from)|
    decreases |s| - from
  {
    if from >= |s| {
      assert Occurrences(s, p, from) == {};
    } else {
      CountFromOccurrences(s, p, from + 1);
      if OccursAt(s, p, from) {
        assert Occurrences(s, p, from) == {from} + Occurrences(s, p, from + 1);
      } else {
        assert Occurrences(s, p, from) == Occurrences(s, p, from + 1);
      }
    }
  }

  /** One step of a counting scan: the count from `from` is found by searching for the next occurrence. */
  lemma CountAtNext(s: string, p: string, from: nat)
    ensures var next := IndexOf(s, p, from);
            && (next == -1 ==> CountFrom(s, p, from) == 0)
            && (next != -1 ==> CountFrom(s, p, from) == 1 + CountFrom(s, p, next + 1))
  {
    var next := IndexOf(s, p, from);
    if next == -1 {
      if from < |s| {
        CountSkip(s, p, from, |s|);
      }
    } else {
      CountSkip(s, p, from, next);
      assert CountFrom(s, p, next) == 1 + CountFrom(s, p, next + 1);
    }
  }

  /** Skipping a stretch of positions without an occurrence does not change the count. */
  lemma {:induction false} CountSkip(s: string, p: string, a: nat, b: nat)
    requires a <= b
    requires forall j :: a <= j < b ==> !OccursAt(s, p, j)
    ensures CountFrom(s, p, a) == CountFrom(s, p, b)
    decreases b - a
  {
    if a < b && a < |s| {
      CountSkip(s, p, a + 1, b);
    }
  }

  /** A set of positions where a non-empty `p` occurs is no larger than the count. */
  lemma CountAtLeast(s: string, p: string, ps: set<int>)
    requires |p| > 0
    requires forall q :: q in ps ==> OccursAt(s, p, q)
    ensures CountFrom(s, p, 0) >= |ps|
  {
    CountFromOccurrences(s, p, 0);
    var all := Occurrences(s, p, 0);
    assert ps <= all;
    assert all == ps + (all - ps);
    assert |all| == |ps| + |all - ps|;
  }
}
