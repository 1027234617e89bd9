/**
 The access decision taken for each input line in the controller's main
 loop, as a pure function of the trimmed input and the occupancy text the
 store returned. The actuation, the store write or delete and the audit
 record that follow each outcome are not modelled.
 */
module Access {
  import opened ArduinoString
  import opened Occupancy
  import opened Allowlist

  /** What the loop does with one input line. */
  datatype Outcome =
    | Invalid             // rejected before any lookup ("formato inválido")
    | Denied              // unknown identifier, or lot full
    | Entry(slot: string) // the identifier is assigned `slot`
    | Exit(slot: string)  // the identifier releases `slot`

  /**
   The branch structure of `loop`: format gate, then allowlist, then exit
   when the identifier already holds a slot, else entry while the count is
   below the number of slots, else denial. Only an allowlisted identifier
   ever enters or leaves; it leaves exactly when the text names a slot for
   it, and it never enters with the empty slot name.
   */
  function Decide(input: string, text: string): (r: Outcome)
    ensures r == Invalid <==> !IsValidFormat(input)
    ensures r.Entry? || r.Exit? ==> input in MotoIds
    ensures IsValidFormat(input) && input in MotoIds
            ==> (r.Exit? <==> FindOccupiedVaga(input, text) != "")
    ensures r.Exit? ==> r.slot == FindOccupiedVaga(input, text)
    ensures r.Entry? ==> r.slot == FindNextAvailableVaga(text) != "" && OccupiedCount(text) < TotalSlots
  {
    if !IsValidFormat(input) then Invalid
    else if FindMotoIndex(input) == -1 then Denied
    else
      var occupiedVaga := FindOccupiedVaga(input, text);
      if occupiedVaga != "" then Exit(occupiedVaga)
      else if OccupiedCount(text) < TotalSlots then
        NextFreeWhenNotFull(text);
        Entry(FindNextAvailableVaga(text))
      else Denied
  }

  /** An input is rejected as invalid exactly when it has at most three bytes (`length() <= 3`), whatever the store holds. */
  lemma InvalidExactlyWhenShort(input: string, text: string)
    ensures Decide(input, text) == Invalid <==> |input| <= 3
  {
  }

  /** A well-formed identifier outside the allowlist is denied, whatever the store holds. */
  lemma UnknownIdDenied(input: string, text: string)
    requires |input| > 3
    requires input !in MotoIds
    ensures Decide(input, text) == Denied
  {
  }

  /**
   An allowlisted identifier whose quoted form first occurs at `m`, with a
   `vaga_` last starting at `k` at or before it, exits: the released slot is
   the text from `k` up to the next quote, whatever the count.
   */
  lemma HolderExits(input: string, text: string, m: int, k: int)
    requires |input| > 3
    requires input in MotoIds
    requires IsFirstOccurrence(text, Quoted(input), m)
    requires IsLastAtOrBefore(text, SlotPrefix, k, m)
    ensures Decide(input, text).Exit?
    ensures var s := Decide(input, text).slot;
            k + |s| <= m && WordUpToQuote(text, k, s)
            && |s| >= |SlotPrefix| && s[..|SlotPrefix|] == SlotPrefix
            && forall i :: 0 <= i < |s| ==> s[i] != '"'
  {
    FindOccupiedVagaSpec(input, text);
  }

  /**
   An allowlisted identifier that holds no slot, while fewer than
   `TotalSlots` slots are counted, enters at the lowest-numbered free slot.
   */
  lemma NewcomerEntersLowestFree(input: string, text: string)
    requires |input| > 3
    requires input in MotoIds
    requires !exists m, k :: IsFirstOccurrence(text, Quoted(input), m)
                             && IsLastAtOrBefore(text, SlotPrefix, k, m)
    requires OccupiedCount(text) < TotalSlots
    ensures Decide(input, text).Entry?
    ensures exists n :: Decide(input, text).slot == SlotName(n) && IsLowestFree(text, n)
  {
    FindOccupiedVagaSpec(input, text);
    NextFreeWhenNotFull(text);
  }

  /** An allowlisted identifier that holds no slot is denied once `TotalSlots` slots are counted. */
  lemma FullLotDenies(input: string, text: string)
    requires |input| > 3
    requires input in MotoIds
    requires !exists m, k :: IsFirstOccurrence(text, Quoted(input), m)
                             && IsLastAtOrBefore(text, SlotPrefix, k, m)
    requires OccupiedCount(text) >= TotalSlots
    ensures Decide(input, text) == Denied
  {
    FindOccupiedVagaSpec(input, text);
  }

  /**
   Every slot an outcome carries is meaningful: an entry slot is a real slot
   name `vaga_1`..`vaga_5` whose key is absent (never ""), and an exit slot
   starts with `vaga_` and holds no quote.
   */
  lemma OutcomeSlotsWellFormed(input: string, text: string)
    ensures Decide(input, text).Entry? ==>
              exists n :: Decide(input, text).slot == SlotName(n) && IsLowestFree(text, n)
    ensures Decide(input, text).Exit? ==>
              var s := Decide(input, text).slot;
              |s| >= |SlotPrefix| && s[..|SlotPrefix|] == SlotPrefix
              && forall i :: 0 <= i < |s| ==> s[i] != '"'
  {
    if Decide(input, text).Entry? {
      NextFreeWhenNotFull(text);
    }
  }
}
