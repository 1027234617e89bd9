/**
 The access decision restated on the occupancy map itself instead of its
 text: an identifier that holds a slot leaves through it, a newcomer takes
 the lowest unassigned slot while fewer than `TotalSlots` are assigned, and
 everything else is refused. The main theorem shows that the controller's
 substring-based decision on the rendered text of any well-formed map
 agrees with this reference decision.
 */
module MapDecision {
  import opened ArduinoString
  import opened QuotedText
  import opened Occupancy
  import opened OccupancyMap
  import opened Allowlist
  import opened Access

  /**
   The lowest slot at or after `n` that the map leaves unassigned, or
   `TotalSlots + 1` when every such slot is assigned.
   */
  function LowestUnassigned(es: seq<Assignment>, n: nat): (r: nat)
    ensures r == TotalSlots + 1 || n <= r <= TotalSlots
    ensures r <= TotalSlots ==> !Assigned(es, r)
    ensures forall m :: n <= m < r && m <= TotalSlots ==> Assigned(es, m)
    decreases TotalSlots + 1 - n
  {
    if n > TotalSlots then TotalSlots + 1
    else if !Assigned(es, n) then n
    else LowestUnassigned(es, n + 1)
  }

  /**
   The reference decision: the format gate and the allowlist as in the
   controller, then the map's own answer to "does this identifier hold a
   slot" and "how many slots are taken".
   */
  function DecideOnMap(input: string, es: seq<Assignment>): Outcome
  {
    if |input| <= 3 then Invalid
    else if input !in MotoIds then Denied
    else
      var h := FirstHolder(es, input);
      if h != -1 then Exit(SlotName(es[h].slot))
      else if |es| < TotalSlots then Entry(SlotName(LowestUnassigned(es, 1)))
      else Denied
  }

  /** The authorised identifiers can only be found quoted where an entry holds them. */
  lemma AllowlistSearchable(id: string)
    requires id in MotoIds
    ensures Searchable(id)
  {
    var i :| 0 <= i < |MotoIds| && MotoIds[i] == id;
    assert id[0] == 'R' && |id| > 1;
    forall t | 0 <= t < |id|
      ensures id[t] != '"'
    {
      assert id[t] in "RFID-HNIPORE0123456789";
    }
  }

  /**
   The slot loop of `findNextAvailableVaga` on the rendered text walks the
   slots the map leaves unassigned.
   */
  lemma {:induction false} NextFreeMatchesMap(es: seq<Assignment>, n: nat)
    requires WellFormed(es) && 1 <= n
    ensures NextFreeFrom(Render(es), n) == LowestUnassigned(es, n)
    decreases TotalSlots + 1 - n
  {
    if n <= TotalSlots {
      KeyPresentIffAssigned(es, n);
      NextFreeMatchesMap(es, n + 1);
    }
  }

  /**
   On the rendered text of a well-formed map, `findNextAvailableVaga`
   names the lowest unassigned slot, and answers "" when all are assigned.
   */
  lemma FindNextMatchesMap(es: seq<Assignment>)
    requires WellFormed(es)
    ensures var n := LowestUnassigned(es, 1);
            FindNextAvailableVaga(Render(es)) == if n <= TotalSlots then SlotName(n) else ""
  {
    NextFreeMatchesMap(es, 1);
  }

  /**
   A well-formed map with fewer than `TotalSlots` entries leaves some slot
   unassigned: the slots are distinct, so five assigned slots take five
   entries. The count over the rendered text carries the argument.
   */
  lemma FreeSlotWhenNotFull(es: seq<Assignment>)
    requires WellFormed(es) && |es| < TotalSlots
    ensures LowestUnassigned(es, 1) <= TotalSlots
  {
    CountMatchesMap(es);
    NextFreeWhenNotFull(Render(es));
    FindNextMatchesMap(es);
  }

  /**
   On the rendered text of any well-formed map, the controller's decision
   is the reference decision on the map.
   */
  lemma DecideMatchesMap(input: string, es: seq<Assignment>)
    requires WellFormed(es)
    ensures Decide(input, Render(es)) == DecideOnMap(input, es)
  {
    if |input| > 3 && input in MotoIds {
      AllowlistSearchable(input);
      FindOccupiedMatchesMap(es, input);
      if FirstHolder(es, input) == -1 {
        CountMatchesMap(es);
        FindNextMatchesMap(es);
        if |es| < TotalSlots {
          FreeSlotWhenNotFull(es);
        }
      }
    }
  }

  /** No quoted word, and so no slot key, occurs in a text without quotes. */
  lemma NoQuotedWord(text: string, w: string)
    requires QuoteFree(text) && |w| > 0 && w[0] == '"'
    ensures IndexOf(text, w, 0) == -1
  {
  }

  /**
   An empty store answers `null` instead of the `{}` the empty map renders
   as, and the controller decides on `null` as on the empty map.
   */
  lemma NullIsEmptyStore(input: string)
    ensures Render([]) == "{}"
    ensures Decide(input, "null") == DecideOnMap(input, [])
  {
    RenderEmpty([]);
    DecideMatchesMap(input, []);
    NoQuotedWord("null", Quoted(input));
    NoQuotedWord("{}", Quoted(input));
    NoQuotedWord("null", SlotKey(1));
    NoQuotedWord("{}", SlotKey(1));
  }

  /**
   What the reference decision promises an authorised identifier: it exits
   through the slot its first entry holds, or, holding none, enters a slot
   that is unassigned with every lower slot assigned, or is refused only
   when all `TotalSlots` slots are taken.
   */
  lemma DecideOnMapOutcomes(input: string, es: seq<Assignment>)
    requires WellFormed(es) && |input| > 3 && input in MotoIds
    ensures DecideOnMap(input, es).Exit? <==> exists j :: 0 <= j < |es| && es[j].id == input
    ensures DecideOnMap(input, es).Exit? ==>
              exists j :: 0 <= j < |es| && es[j].id == input && DecideOnMap(input, es).slot == SlotName(es[j].slot)
    ensures DecideOnMap(input, es).Entry? ==>
              exists n :: 1 <= n <= TotalSlots && DecideOnMap(input, es).slot == SlotName(n)
                          && !Assigned(es, n) && forall m :: 1 <= m < n ==> Assigned(es, m)
    ensures DecideOnMap(input, es) == Denied ==> |es| >= TotalSlots
    ensures DecideOnMap(input, es) != Invalid
  {
    if FirstHolder(es, input) == -1 && |es| < TotalSlots {
      FreeSlotWhenNotFull(es);
    }
  }
}
