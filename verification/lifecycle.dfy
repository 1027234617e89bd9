/**
 The occupancy store as the controller drives it. After an entry decision
 the controller writes the identifier under the granted slot's key; after
 an exit decision it deletes the released slot's key; refusals leave the
 store alone. `Step` takes every read to return the store's own text, every
 write to succeed and nothing else to write to the store; under those
 assumptions the lemmas show that the store stays sane: slots stay distinct
 and in range, no identifier is ever parked twice, and only authorised
 identifiers are ever stored. A read that fails while Wi-Fi stays up makes
 the controller decide on `{}` instead; that path is `FailedRead`, and it
 does break the invariant.
 */
module Lifecycle {
  import opened Occupancy
  import opened OccupancyMap
  import opened Allowlist
  import opened Access
  import opened MapDecision

  /** No identifier holds two slots. */
  predicate UniqueHolders(es: seq<Assignment>)
  {
    forall j, k :: 0 <= j < k < |es| ==> es[j].id != es[k].id
  }

  /** Every stored identifier is in the allowlist. */
  predicate OnlyAuthorised(es: seq<Assignment>)
  {
    forall j :: 0 <= j < |es| ==> es[j].id in MotoIds
  }

  /** What the store keeps true between decisions. */
  predicate Sane(es: seq<Assignment>)
  {
    WellFormed(es) && UniqueHolders(es) && OnlyAuthorised(es)
  }

  /**
   The store after one input line: an entry adds the identifier under the
   granted slot, an exit removes the entry of the released slot, anything
   else changes nothing.
   */
  function Step(input: string, es: seq<Assignment>): (r: seq<Assignment>)
    ensures forall a :: a in es && a.id != input ==> a in r
    ensures forall a :: a in r && a.id != input ==> a in es
  {
    match DecideOnMap(input, es)
    case Entry(_) => es + [Assignment(LowestUnassigned(es, 1), input)]
    case Exit(_) =>
      var h := FirstHolder(es, input);
      RemoveKeepsOthers(es, h, input);
      es[..h] + es[h + 1..]
    case _ => es
  }

  /** Removing an entry of `id` keeps exactly the other identifiers' entries. */
  lemma RemoveKeepsOthers(es: seq<Assignment>, h: nat, id: string)
    requires h < |es| && es[h].id == id
    ensures forall a :: a in es && a.id != id ==> a in es[..h] + es[h + 1..]
    ensures forall a :: a in es[..h] + es[h + 1..] ==> a in es
  {
    var rs := es[..h] + es[h + 1..];
    assert forall j :: 0 <= j < |rs| ==> rs[j] == es[if j < h then j else j + 1];
    forall a | a in es && a.id != id
      ensures a in rs
    {
      var k :| 0 <= k < |es| && es[k] == a;
      if k < h {
        assert rs[k] == a;
      } else {
        assert rs[k - 1] == a;
      }
    }
  }

  /**
   The store after a sequence of input lines, taken in order. Each line adds
   at most one entry, and only for the identifier read on that line.
   */
  function Run(inputs: seq<string>, es: seq<Assignment>): (r: seq<Assignment>)
    ensures forall a :: a in r ==> a in es || a.id in inputs
    decreases |inputs|
  {
    if |inputs| == 0 then es else Run(inputs[1..], Step(inputs[0], es))
  }

  /** Removing one entry keeps a sane store sane. */
  lemma RemovePreservesSane(es: seq<Assignment>, h: nat)
    requires Sane(es) && h < |es|
    ensures Sane(es[..h] + es[h + 1..])
    ensures |es[..h] + es[h + 1..]| == |es| - 1
  {
    var rs := es[..h] + es[h + 1..];
    assert forall j :: 0 <= j < |rs| ==> rs[j] == es[if j < h then j else j + 1];
  }

  /** Adding an entry for a free slot and a new authorised identifier keeps a sane store sane. */
  lemma AddPreservesSane(es: seq<Assignment>, n: nat, id: string)
    requires Sane(es) && 1 <= n <= TotalSlots && !Assigned(es, n)
    requires id in MotoIds && forall j :: 0 <= j < |es| ==> es[j].id != id
    ensures Sane(es + [Assignment(n, id)])
  {
    AllowlistSearchable(id);
  }

  /**
   One decision keeps the store sane, and moves the deciding identifier
   exactly as the outcome says: after an entry it holds the granted slot,
   after an exit it holds none, otherwise nothing changes.
   */
  lemma StepPreservesSane(input: string, es: seq<Assignment>)
    requires Sane(es)
    ensures Sane(Step(input, es))
    ensures DecideOnMap(input, es).Entry? ==>
              var n := LowestUnassigned(es, 1);
              1 <= n <= TotalSlots && Step(input, es) == es + [Assignment(n, input)]
              && DecideOnMap(input, es).slot == SlotName(n)
    ensures DecideOnMap(input, es).Exit? ==>
              |Step(input, es)| == |es| - 1 && FirstHolder(Step(input, es), input) == -1
    ensures !DecideOnMap(input, es).Entry? && !DecideOnMap(input, es).Exit? ==> Step(input, es) == es
  {
    match DecideOnMap(input, es)
    case Entry(_) =>
      FreeSlotWhenNotFull(es);
      AddPreservesSane(es, LowestUnassigned(es, 1), input);
    case Exit(_) =>
      RemoveHolder(es, FirstHolder(es, input), input);
    case _ =>
  }

  /** Removing the only entry of `id` from a sane store leaves `id` holding nothing. */
  lemma RemoveHolder(es: seq<Assignment>, h: nat, id: string)
    requires Sane(es) && h < |es| && es[h].id == id
    ensures Sane(es[..h] + es[h + 1..]) && |es[..h] + es[h + 1..]| == |es| - 1
    ensures FirstHolder(es[..h] + es[h + 1..], id) == -1
  {
    RemovePreservesSane(es, h);
    var rs := es[..h] + es[h + 1..];
    forall j | 0 <= j < |rs|
      ensures rs[j].id != id
    {
      if j < h {
        assert rs[j] == es[j];
      } else {
        assert rs[j] == es[j + 1];
      }
    }
  }

  /** A sane store stays sane whatever sequence of input lines arrives. */
  lemma {:induction false} RunPreservesSane(inputs: seq<string>, es: seq<Assignment>)
    requires Sane(es)
    ensures Sane(Run(inputs, es))
    decreases |inputs|
  {
    if |inputs| > 0 {
      StepPreservesSane(inputs[0], es);
      RunPreservesSane(inputs[1..], Step(inputs[0], es));
    }
  }

  /** In a sequence with no repeated element, each element occurs at most once. */
  lemma {:induction false} DistinctOnce(es: seq<Assignment>, a: Assignment)
    requires forall j, k :: 0 <= j < k < |es| ==> es[j] != es[k]
    ensures multiset(es)[a] <= 1
    decreases |es|
  {
    if |es| > 0 {
      var rest := es[1..];
      assert es == [es[0]] + rest;
      DistinctOnce(rest, a);
      if es[0] == a {
        assert a !in rest;
      }
    }
  }

  /** A reordering of a sequence with no repeated element has none either. */
  lemma DistinctReordered(es: seq<Assignment>, es': seq<Assignment>)
    requires multiset(es) == multiset(es')
    requires forall j, k :: 0 <= j < k < |es| ==> es[j] != es[k]
    ensures forall j, k :: 0 <= j < k < |es'| ==> es'[j] != es'[k]
  {
    forall j, k | 0 <= j < k < |es'|
      ensures es'[j] != es'[k]
    {
      if es'[j] == es'[k] {
        var a := es'[k];
        assert es' == es'[..k] + [a] + es'[k + 1..];
        assert es'[..k][j] == a;
        assert multiset(es')[a] >= 2;
        DistinctOnce(es, a);
      }
    }
  }

  /** Maps with the same entries assign the same slots, so they agree on the lowest free one. */
  lemma {:induction false} LowestUnassignedSame(es: seq<Assignment>, es': seq<Assignment>, n: nat)
    requires forall a :: a in es <==> a in es'
    ensures LowestUnassigned(es, n) == LowestUnassigned(es', n)
    decreases TotalSlots + 1 - n
  {
    if n <= TotalSlots {
      if Assigned(es, n) {
        var j :| 0 <= j < |es| && es[j].slot == n;
        assert es[j] in es';
      }
      if Assigned(es', n) {
        var j :| 0 <= j < |es'| && es'[j].slot == n;
        assert es'[j] in es;
      }
      LowestUnassignedSame(es, es', n + 1);
    }
  }

  /** A reordering has the same length and the same entries. */
  lemma SameEntries(es: seq<Assignment>, es': seq<Assignment>)
    requires multiset(es) == multiset(es')
    ensures |es'| == |es|
    ensures forall a :: a in es <==> a in es'
  {
    assert forall a :: a in es <==> a in multiset(es);
    assert forall a :: a in es' <==> a in multiset(es');
    assert |es'| == |multiset(es')| == |multiset(es)| == |es|;
  }

  /** A sane store listed in another order is still sane. */
  lemma SaneReordered(es: seq<Assignment>, es': seq<Assignment>)
    requires Sane(es) && multiset(es) == multiset(es')
    ensures Sane(es')
  {
    SameEntries(es, es');
    DistinctReordered(es, es');
    forall j, k | 0 <= j < k < |es'|
      ensures es'[j].slot != es'[k].slot && es'[j].id != es'[k].id
    {
      assert es'[j] in es && es'[k] in es;
      var p :| 0 <= p < |es| && es[p] == es'[j];
      var q :| 0 <= q < |es| && es[q] == es'[k];
      assert p != q;
    }
    forall j | 0 <= j < |es'|
      ensures 1 <= es'[j].slot <= TotalSlots && StorableId(es'[j].id) && es'[j].id in MotoIds
    {
      assert es'[j] in es;
    }
  }

  /**
   The store may list its entries in any order. A sane store listed in
   another order is still sane, and the reference decision on it is the
   same for every input line.
   */
  lemma DecideOnMapReorder(input: string, es: seq<Assignment>, es': seq<Assignment>)
    requires Sane(es) && multiset(es) == multiset(es')
    ensures Sane(es')
    ensures DecideOnMap(input, es') == DecideOnMap(input, es)
  {
    SaneReordered(es, es');
    SameEntries(es, es');
    LowestUnassignedSame(es, es', 1);
    var h := FirstHolder(es, input);
    var h' := FirstHolder(es', input);
    if h != -1 {
      assert es[h] in es';
    }
    if h' != -1 {
      assert es'[h'] in es;
      var p :| 0 <= p < |es| && es[p] == es'[h'];
      assert p == h;
    }
  }

  /** Removing the entry at `h` takes exactly that entry out of the multiset. */
  lemma RemoveMultiset(es: seq<Assignment>, h: nat)
    requires h < |es|
    ensures multiset(es[..h] + es[h + 1..]) == multiset(es) - multiset{es[h]}
  {
    assert es == es[..h] + [es[h]] + es[h + 1..];
  }

  /** Removing the same entry from two orderings leaves the same entries. */
  lemma RemoveSameEntry(es: seq<Assignment>, es': seq<Assignment>, h: nat, h': nat)
    requires multiset(es) == multiset(es') && h < |es| && h' < |es'| && es[h] == es'[h']
    ensures multiset(es'[..h'] + es'[h' + 1..]) == multiset(es[..h] + es[h + 1..])
  {
    RemoveMultiset(es, h);
    RemoveMultiset(es', h');
  }

  /** When no identifier holds two slots, two orderings agree on the holder's entry. */
  lemma HolderReordered(id: string, es: seq<Assignment>, es': seq<Assignment>)
    requires UniqueHolders(es) && (forall a :: a in es <==> a in es') && FirstHolder(es, id) != -1
    ensures FirstHolder(es', id) != -1
    ensures es'[FirstHolder(es', id)] == es[FirstHolder(es, id)]
  {
    var h := FirstHolder(es, id);
    assert es[h] in es';
    var h' := FirstHolder(es', id);
    assert es'[h'] in es;
    var p :| 0 <= p < |es| && es[p] == es'[h'];
    assert p == h;
  }

  /** An admitted line appends its identifier under the lowest free slot. */
  lemma StepEntryShape(input: string, es: seq<Assignment>)
    requires DecideOnMap(input, es).Entry?
    ensures Step(input, es) == es + [Assignment(LowestUnassigned(es, 1), input)]
  {
  }

  /** A departing line removes exactly the holder's entry. */
  lemma StepExitShape(input: string, es: seq<Assignment>)
    requires DecideOnMap(input, es).Exit?
    ensures 0 <= FirstHolder(es, input)
    ensures Step(input, es) == es[..FirstHolder(es, input)] + es[FirstHolder(es, input) + 1..]
  {
    match DecideOnMap(input, es)
    case Exit(_) =>
  }

  /**
   One input line on a sane store listed in another order changes it the
   same way: the resulting stores hold the same entries.
   */
  lemma StepReorder(input: string, es: seq<Assignment>, es': seq<Assignment>)
    requires Sane(es) && multiset(es) == multiset(es')
    ensures multiset(Step(input, es')) == multiset(Step(input, es))
  {
    DecideOnMapReorder(input, es, es');
    var d := DecideOnMap(input, es);
    if d.Entry? {
      StepEntryShape(input, es);
      StepEntryShape(input, es');
      SameEntries(es, es');
      LowestUnassignedSame(es, es', 1);
    } else if d.Exit? {
      StepExitShape(input, es);
      StepExitShape(input, es');
      SameEntries(es, es');
      HolderReordered(input, es, es');
      RemoveSameEntry(es, es', FirstHolder(es, input), FirstHolder(es', input));
    }
  }

  /**
   Starting from an empty store, after any sequence of input lines no
   identifier holds two slots, no slot is listed twice, every stored
   identifier is authorised and at most `TotalSlots` slots are taken; and,
   in whatever order the store lists the entries, each line's decision on
   the store's text is the reference decision on the map.
   */
  lemma FromEmptyStore(inputs: seq<string>, stored: seq<Assignment>, input: string)
    requires multiset(stored) == multiset(Run(inputs, []))
    ensures Sane(Run(inputs, [])) && Sane(stored)
    ensures |stored| <= TotalSlots
    ensures Decide(input, Render(stored)) == DecideOnMap(input, Run(inputs, []))
  {
    RunPreservesSane(inputs, []);
    DecideOnMapReorder(input, Run(inputs, []), stored);
    WellFormedFits(stored);
    DecideMatchesMap(input, stored);
  }

  /**
   On any store reached from the empty one, listed in any order, the
   controller grants entry only to an identifier that holds no slot and
   only while a slot is free, and releases on exit the slot the identifier
   actually holds.
   */
  lemma NoDoubleParking(inputs: seq<string>, stored: seq<Assignment>, input: string)
    requires multiset(stored) == multiset(Run(inputs, []))
    ensures Decide(input, Render(stored)).Entry? ==>
              |stored| < TotalSlots && forall j :: 0 <= j < |stored| ==> stored[j].id != input
    ensures Decide(input, Render(stored)).Exit? ==>
              exists j :: 0 <= j < |stored| && stored[j].id == input
                          && Decide(input, Render(stored)).slot == SlotName(stored[j].slot)
  {
    FromEmptyStore(inputs, stored, input);
    DecideMatchesMap(input, stored);
    if Decide(input, Render(stored)).Exit? {
      var h := FirstHolder(stored, input);
      assert stored[h].id == input;
    }
  }
}
