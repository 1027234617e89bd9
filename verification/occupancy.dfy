/**
 The occupancy-text parser of the parking controller. The remote store
 returns the occupancy map as raw object text such as
 `{"vaga_2":"RFID002","vaga_4":"RFID005"}`, or `{}` / `null` when nothing is
 occupied. The controller never parses it: it answers its three questions
 (which slot does an identifier hold, which slot is the lowest free one, how
 many slots are taken) by substring search on the raw text.
 */
module Occupancy {
  import opened ArduinoString

  /** The number of parking slots, `vaga_1` to `vaga_5`. */
  const TotalSlots: nat := 5

  /** Every slot name starts with this prefix. */
  const SlotPrefix: string := "vaga_"

  /** A slot name opened as an object key: a quote followed by the prefix. */
  const KeyPrefix: string := "\"vaga_"

  /** The decimal digit for `d`. */
  function DigitChar(d: nat): char
    requires d < 10
  {
    ('0' as int + d) as char
  }

  /** Decimal rendering of a natural number, as Arduino's `String(int)` gives it. */
  function Decimal(n: nat): (r: string)
    ensures |r| > 0
    ensures forall i :: 0 <= i < |r| ==> '0' <= r[i] <= '9'
  {
    if n < 10 then [DigitChar(n)]
    else Decimal(n / 10) + [DigitChar(n % 10)]
  }

  /** The name of slot `n`: `vaga_<n>`. */
  function SlotName(n: nat): string
  {
    SlotPrefix + Decimal(n)
  }

  /** The object key of slot `n` as it appears in the text: `"vaga_<n>":`. */
  function SlotKey(n: nat): string
  {
    "\"" + SlotName(n) + "\":"
  }

  /** An identifier as it appears quoted in the text: `"<id>"`. */
  function Quoted(id: string): string
  {
    "\"" + id + "\""
  }

  /** Slot `n` counts as occupied when its key occurs in the text. */
  ghost predicate KeyPresent(text: string, n: nat)
  {
    Contains(text, SlotKey(n))
  }

  /** All slots are occupied. */
  ghost predicate AllKeysPresent(text: string)
  {
    forall n :: 1 <= n <= TotalSlots ==> KeyPresent(text, n)
  }

  /** Slot `n` is free and every lower-numbered slot is occupied. */
  ghost predicate IsLowestFree(text: string, n: nat)
  {
    1 <= n <= TotalSlots && !KeyPresent(text, n)
    && forall m :: 1 <= m < n ==> KeyPresent(text, m)
  }

  /** The `indexOf` test of `findNextAvailableVaga` decides whether a key is present. */
  lemma KeySearch(text: string, n: nat)
    ensures IndexOf(text, SlotKey(n), 0) != -1 <==> KeyPresent(text, n)
  {
    if KeyPresent(text, n) {
      var i :| OccursAt(text, SlotKey(n), i);
      assert 0 <= i < |text|;
    }
  }

  /**
   The slot loop of `findNextAvailableVaga` from slot `n` on: the first slot
   at or after `n` whose key is absent, or `TotalSlots + 1` when there is none.
   */
  function NextFreeFrom(text: string, n: nat): (r: nat)
    ensures r == TotalSlots + 1 || n <= r <= TotalSlots
    ensures r <= TotalSlots ==> !KeyPresent(text, r)
    ensures forall m :: n <= m < r && m <= TotalSlots ==> KeyPresent(text, m)
    decreases TotalSlots + 1 - n
  {
    if n > TotalSlots then TotalSlots + 1
    else if IndexOf(text, SlotKey(n), 0) == -1 then
      KeySearch(text, n);
      n
    else
      KeySearch(text, n);
      NextFreeFrom(text, n + 1)
  }

  /**
   `findNextAvailableVaga`: the name of the lowest-numbered slot whose key is
   absent from the text, or "" when every slot key is present.
   */
  function FindNextAvailableVaga(text: string): (r: string)
    ensures r == "" <==> AllKeysPresent(text)
    ensures r != "" ==> exists n :: r == SlotName(n) && IsLowestFree(text, n)
  {
    var n := NextFreeFrom(text, 1);
    if n <= TotalSlots then
      assert IsLowestFree(text, n);
      SlotName(n)
    else ""
  }

  /**
   `findOccupiedVaga`: find the quoted identifier, look back for the nearest
   `vaga_` at or before it, and cut the text from there up to the next quote.
   A non-empty answer is a slot-like name: it starts with `vaga_` and holds
   no quote.
   */
  function FindOccupiedVaga(id: string, text: string): (r: string)
    ensures r != "" ==> |r| >= |SlotPrefix| && r[..|SlotPrefix|] == SlotPrefix
    ensures forall i :: 0 <= i < |r| ==> r[i] != '"'
  {
    var motoPos := IndexOf(text, Quoted(id), 0);
    if motoPos == -1 then
      ""
    else
      var startPos := LastIndexOf(text, SlotPrefix, motoPos);
      if startPos == -1 then
        ""
      else
        SlotNameEndsAtQuote(text, Quoted(id), startPos, motoPos);
        var endPos := IndexOf(text, "\"", startPos);
        if endPos != -1 then Substring(text, startPos, endPos) else ""
  }

  /**
   What `FindOccupiedVaga` finds, stated without the search: the answer is
   non-empty exactly when the quoted identifier occurs and some `vaga_`
   starts at or before its first occurrence; it is then the text from the
   last such `vaga_` up to (not including) the next quote, which lies before
   the identifier.
   */
  lemma FindOccupiedVagaSpec(id: string, text: string)
    ensures FindOccupiedVaga(id, text) != ""
            <==> exists m, k :: IsFirstOccurrence(text, Quoted(id), m)
                               && IsLastAtOrBefore(text, SlotPrefix, k, m)
    ensures forall m, k :: IsFirstOccurrence(text, Quoted(id), m)
                           && IsLastAtOrBefore(text, SlotPrefix, k, m)
                           ==> k + |FindOccupiedVaga(id, text)| <= m
                               && WordUpToQuote(text, k, FindOccupiedVaga(id, text))
  {
    var q := Quoted(id);
    var r := FindOccupiedVaga(id, text);
    var motoPos := IndexOf(text, q, 0);
    if motoPos == -1 {
      assert r == "";
      assert forall m :: !IsFirstOccurrence(text, q, m);
    } else {
      assert IsFirstOccurrence(text, q, motoPos);
      FirstOccurrenceUnique(text, q, motoPos);
      var startPos := LastIndexOf(text, SlotPrefix, motoPos);
      if startPos == -1 {
        assert r == "";
        assert forall k :: !IsLastAtOrBefore(text, SlotPrefix, k, motoPos);
      } else {
        LastAtOrBeforeUnique(text, SlotPrefix, startPos, motoPos);
        SlotNameEndsAtQuote(text, q, startPos, motoPos);
        var endPos := IndexOf(text, "\"", startPos);
        assert r == text[startPos..endPos];
      }
    }
  }

  /**
   Once a `vaga_` is found at `k` before a quoted identifier at `m`, the
   next quote after `k` lies strictly past the prefix and no later than `m`.
   */
  lemma SlotNameEndsAtQuote(text: string, quoted: string, k: int, m: int)
    requires |quoted| > 0 && quoted[0] == '"'
    requires OccursAt(text, quoted, m)
    requires IsLastAtOrBefore(text, SlotPrefix, k, m)
    ensures var e := IndexOf(text, "\"", k);
            k + |SlotPrefix| <= e <= m
            && (forall i :: k <= i < e ==> text[i] != '"')
            && text[e] == '"'
  {
    assert text[m] == quoted[0];
    assert OccursAt(text, "\"", m);
    forall j | k <= j < k + |SlotPrefix|
      ensures !OccursAt(text, "\"", j)
    {
      assert text[j] == SlotPrefix[j - k];
    }
    var e := IndexOf(text, "\"", k);
    forall i | k <= i < e
      ensures text[i] != '"'
    {
      assert !OccursAt(text, "\"", i);
      assert text[i..i + 1] == [text[i]];
    }
    assert text[e..e + 1] == "\"";
  }

  /** The count `countOccupiedVagas` reports. */
  function OccupiedCount(text: string): nat
  {
    if text == "{}" || text == "null" || |text| < 5 then 0
    else CountFrom(text, KeyPrefix, 0)
  }

  /**
   What the count means: 0 for `{}`, `null` and any text shorter than five
   bytes, otherwise the number of positions where the key prefix
   `"vaga_` occurs.
   */
  lemma OccupiedCountMeaning(text: string)
    ensures text == "{}" || text == "null" || |text| < 5 ==> OccupiedCount(text) == 0
    ensures !(text == "{}" || text == "null" || |text| < 5)
            ==> OccupiedCount(text) == |Occurrences(text, KeyPrefix, 0)|
  {
    CountFromOccurrences(text, KeyPrefix, 0);
  }

  /**
   `countOccupiedVagas`, with the source's search loop: each `indexOf` call
   starts one past the previous hit, so `index` strictly increases and stays
   below the length of the text.
   */
  method CountOccupiedVagas(text: string) returns (count: int)
    ensures count >= 0
    ensures count == OccupiedCount(text)
  {
    if text == "{}" || text == "null" || |text| < 5 {
      return 0;
    }
    count := 0;
    var index := -1;
    while true
      invariant -1 <= index < |text|
      invariant count + CountFrom(text, KeyPrefix, index + 1) == CountFrom(text, KeyPrefix, 0)
      decreases |text| - index
    {
      var next := IndexOf(text, KeyPrefix, index + 1);
      CountAtNext(text, KeyPrefix, index + 1);
      if next == -1 {
        break;
      }
      index := next;
      count := count + 1;
    }
  }

  /**
   A key of a single-digit slot occurring at `i` opens with the key prefix
   there and carries the slot's digit right after it.
   */
  lemma KeyOccurrence(text: string, n: nat, i: int)
    requires n < 10
    requires OccursAt(text, SlotKey(n), i)
    ensures OccursAt(text, KeyPrefix, i)
    ensures text[i + |KeyPrefix|] == DigitChar(n)
  {
    var key := SlotKey(n);
    assert key == KeyPrefix + [DigitChar(n)] + "\":";
    assert text[i..i + |key|] == key;
    assert text[i..i + |KeyPrefix|] == key[..|KeyPrefix|];
    assert text[i + |KeyPrefix|] == key[|KeyPrefix|];
  }

  /**
   When the keys of all slots are present, the prefix count sees at least
   `TotalSlots` distinct occurrences: the keys start at distinct positions
   because they differ in their digit, and the text is too long for the
   short-circuit cases.
   */
  lemma {:induction false} AllKeysForceFullCount(text: string)
    requires AllKeysPresent(text)
    ensures OccupiedCount(text) >= TotalSlots
  {
    var ps: set<int> := {};
    var n := 1;
    while n <= TotalSlots
      invariant 1 <= n <= TotalSlots + 1
      invariant |ps| == n - 1
      invariant forall q :: q in ps ==> OccursAt(text, KeyPrefix, q)
      invariant forall q :: q in ps ==> 0 <= q && q + |KeyPrefix| < |text| && '1' <= text[q + |KeyPrefix|] < DigitChar(n)
    {
      assert KeyPresent(text, n);
      var i :| OccursAt(text, SlotKey(n), i);
      KeyOccurrence(text, n, i);
      assert i !in ps;
      ps := ps + {i};
      n := n + 1;
    }
    assert |text| > 5 by {
      assert KeyPresent(text, 1);
      var i :| OccursAt(text, SlotKey(1), i);
      assert |SlotKey(1)| == 9;
    }
    assert text != "{}" && text != "null";
    CountAtLeast(text, KeyPrefix, ps);
  }

  /**
   While fewer than `TotalSlots` key prefixes are counted, some slot key is
   absent, so `findNextAvailableVaga` names a slot.
   */
  lemma NextFreeWhenNotFull(text: string)
    requires OccupiedCount(text) < TotalSlots
    ensures FindNextAvailableVaga(text) != ""
  {
    if AllKeysPresent(text) {
      AllKeysForceFullCount(text);
    }
  }
}
