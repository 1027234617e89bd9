/**
 The fail-open path of the controller. When the store answers a read with an
 HTTP error while Wi-Fi stays up, the read yields `{}` and the controller
 decides as if the lot were empty; the write that follows still reaches the
 store. The store's write for a slot key replaces whatever that key held.
 The lemmas show what this does to a sane store: slots stay distinct and in
 range, but an identifier that already holds a slot other than `vaga_1` is
 parked a second time, and whoever else held `vaga_1` silently loses it.
 */
module FailedRead {
  import opened ArduinoString
  import opened QuotedText
  import opened Occupancy
  import opened OccupancyMap
  import opened Allowlist
  import opened Access
  import opened MapDecision
  import opened Lifecycle

  /** The entries of `es` for slots other than `n`, in order. */
  function Without(es: seq<Assignment>, n: nat): (r: seq<Assignment>)
    ensures forall a :: a in r <==> a in es && a.slot != n
    ensures |r| <= |es|
  {
    if |es| == 0 then []
    else (if es[0].slot == n then [] else [es[0]]) + Without(es[1..], n)
  }

  /**
   The store after the write of `id` under the key of slot `n`: the entry the
   key held, if any, is replaced, and every other entry is kept.
   */
  function Put(es: seq<Assignment>, n: nat, id: string): (r: seq<Assignment>)
    ensures Assignment(n, id) in r
    ensures forall a :: a in r ==> a == Assignment(n, id) || (a in es && a.slot != n)
    ensures forall a :: a in es && a.slot != n ==> a in r
  {
    Without(es, n) + [Assignment(n, id)]
  }

  /**
   On the `{}` of a failed read, an input that passes the gate and the
   allowlist always enters at `vaga_1`; nothing can exit.
   */
  lemma FailedReadDecision(input: string)
    ensures Decide(input, "{}") ==
            if |input| <= 3 then Invalid
            else if input !in MotoIds then Denied
            else Entry(SlotName(1))
  {
    RenderEmpty([]);
    DecideMatchesMap(input, []);
  }

  /**
   The store after one input line decided on a failed read: an entry writes
   the identifier under `vaga_1`, anything else writes nothing.
   */
  function FailedReadStep(input: string, es: seq<Assignment>): (r: seq<Assignment>)
    ensures |input| > 3 && input in MotoIds ==> r == Put(es, 1, input)
    ensures !(|input| > 3 && input in MotoIds) ==> r == es
  {
    FailedReadDecision(input);
    if Decide(input, "{}").Entry? then Put(es, 1, input) else es
  }

  /** Filtering out slot `n` keeps the slots distinct. */
  lemma {:induction false} WithoutSlotsDistinct(es: seq<Assignment>, n: nat)
    requires forall j, k :: 0 <= j < k < |es| ==> es[j].slot != es[k].slot
    ensures forall j, k :: 0 <= j < k < |Without(es, n)| ==> Without(es, n)[j].slot != Without(es, n)[k].slot
    decreases |es|
  {
    if |es| > 0 {
      var rest := es[1..];
      WithoutSlotsDistinct(rest, n);
      var w := Without(rest, n);
      forall k | 0 <= k < |w|
        ensures w[k].slot != es[0].slot
      {
        assert w[k] in rest;
      }
    }
  }

  /** Writing an authorised identifier under `vaga_1` keeps the slots distinct and in range. */
  lemma PutKeepsSlots(es: seq<Assignment>, id: string)
    requires Sane(es) && id in MotoIds
    ensures WellFormed(Put(es, 1, id)) && OnlyAuthorised(Put(es, 1, id))
  {
    AllowlistSearchable(id);
    var w := Without(es, 1);
    WithoutSlotsDistinct(es, 1);
    forall j | 0 <= j < |w|
      ensures 1 < w[j].slot <= TotalSlots && StorableId(w[j].id) && w[j].id in MotoIds
    {
      assert w[j] in w;
    }
    var r := w + [Assignment(1, id)];
    assert forall j :: 0 <= j < |w| ==> r[j] == w[j];
  }

  /** A failed read keeps the slots distinct and in range and the identifiers authorised. */
  lemma FailedReadKeepsSlots(input: string, es: seq<Assignment>)
    requires Sane(es)
    ensures WellFormed(FailedReadStep(input, es)) && OnlyAuthorised(FailedReadStep(input, es))
  {
    FailedReadDecision(input);
    if Decide(input, "{}").Entry? {
      PutKeepsSlots(es, input);
    }
  }

  /**
   An authorised identifier that already holds a slot other than `vaga_1`,
   arriving while the read fails, is parked a second time.
   */
  lemma FailedReadDoubleParks(input: string, es: seq<Assignment>, j: nat)
    requires Sane(es) && |input| > 3 && input in MotoIds
    requires j < |es| && es[j].id == input && es[j].slot != 1
    ensures !UniqueHolders(FailedReadStep(input, es))
  {
    FailedReadDecision(input);
    var r := FailedReadStep(input, es);
    assert es[j] in es;
    assert es[j] in r && Assignment(1, input) in r;
    var p :| 0 <= p < |r| && r[p] == es[j];
    var q :| 0 <= q < |r| && r[q] == Assignment(1, input);
    assert p != q;
    var lo, hi := if p < q then p else q, if p < q then q else p;
    assert r[lo].id == r[hi].id;
  }

  /**
   Whoever held `vaga_1` when an authorised newcomer arrives during a failed
   read no longer holds any slot, although it never left.
   */
  lemma FailedReadEvicts(input: string, es: seq<Assignment>, j: nat)
    requires Sane(es) && |input| > 3 && input in MotoIds
    requires j < |es| && es[j].slot == 1 && es[j].id != input
    ensures forall a :: a in FailedReadStep(input, es) ==> a.id != es[j].id
  {
    FailedReadDecision(input);
    forall a | a in FailedReadStep(input, es)
      ensures a.id != es[j].id
    {
      if a != Assignment(1, input) {
        var p :| 0 <= p < |es| && es[p] == a;
        assert p != j;
      }
    }
  }

  /** `RFID002`, parked in `vaga_3`, arrives during a failed read and is parked twice. */
  lemma DoubleParkedAfterFailedRead()
    ensures !Sane(FailedReadStep("RFID002", [Assignment(3, "RFID002")]))
  {
    var es := [Assignment(3, "RFID002")];
    assert MotoIds[1] == "RFID002";
    AllowlistSearchable("RFID002");
    FailedReadDoubleParks("RFID002", es, 0);
  }
}
