/**
 The occupancy map as the store holds it, slot name to identifier, and its
 rendering as the flat object text the controller receives, for instance
 `{"vaga_2":"RFID002","vaga_4":"RFID005"}` (`{}` when empty). The lemmas
 show that on such a text the substring searches of `Occupancy` answer what
 the map says: a slot key is present exactly when the slot is assigned, the
 prefix count is the number of entries, and the slot found for an
 identifier is the slot it is assigned to.
 */
module OccupancyMap {
  import opened ArduinoString
  import opened QuotedText
  import opened Occupancy

  /** One entry of the map: `slot` is occupied by the identifier `id`. */
  datatype Assignment = Assignment(slot: nat, id: string)

  /** `w` starts with the slot-name prefix `vaga_`. */
  predicate HasSlotPrefix(w: string)
  {
    |w| >= |SlotPrefix| && w[..|SlotPrefix|] == SlotPrefix
  }

  /**
   An identifier that can stand as a value in the text without being
   mistaken for structure: it holds no quote and does not look like a slot
   name.
   */
  predicate StorableId(id: string)
  {
    QuoteFree(id) && !HasSlotPrefix(id)
  }

  /** Slot numbers are in range, no slot is listed twice, identifiers are storable. */
  predicate WellFormed(es: seq<Assignment>)
  {
    && (forall j :: 0 <= j < |es| ==> 1 <= es[j].slot <= TotalSlots && StorableId(es[j].id))
    && (forall j, k :: 0 <= j < k < |es| ==> es[j].slot != es[k].slot)
  }

  /** Slot `n` is assigned in the map. */
  predicate Assigned(es: seq<Assignment>, n: nat)
  {
    exists j :: 0 <= j < |es| && es[j].slot == n
  }

  /** Entries with distinct slots drawn from `slots` are no more than `slots`. */
  lemma {:induction false} DistinctSlotsFit(es: seq<Assignment>, slots: set<nat>)
    requires forall j :: 0 <= j < |es| ==> es[j].slot in slots
    requires forall j, k :: 0 <= j < k < |es| ==> es[j].slot != es[k].slot
    ensures |es| <= |slots|
    decreases |es|
  {
    if |es| > 0 {
      var last := es[|es| - 1].slot;
      var rest := es[..|es| - 1];
      assert forall j :: 0 <= j < |rest| ==> rest[j] == es[j];
      DistinctSlotsFit(rest, slots - {last});
    }
  }

  /** A well-formed map never lists more entries than there are slots. */
  lemma WellFormedFits(es: seq<Assignment>)
    requires WellFormed(es)
    ensures |es| <= TotalSlots
  {
    var slots: set<nat> := {1, 2, 3, 4, 5};
    assert forall j :: 0 <= j < |es| ==> es[j].slot in slots;
    DistinctSlotsFit(es, slots);
  }

  /**
   The fields between the quotes of the rendered text of the entries: per
   entry its slot name, `:`, its identifier, and `,` (or `}` after the last).
   */
  function EntryFields(es: seq<Assignment>): (fs: seq<string>)
    requires |es| > 0
    ensures |fs| == 4 * |es|
  {
    var head := [SlotName(es[0].slot), ":", es[0].id];
    if |es| == 1 then head + ["}"] else head + [","] + EntryFields(es[1..])
  }

  /** The fields of the whole rendered text. */
  function Fields(es: seq<Assignment>): (fs: seq<string>)
    ensures |fs| == if |es| == 0 then 1 else 4 * |es| + 1
  {
    if |es| == 0 then ["{}"] else ["{"] + EntryFields(es)
  }

  /** The object text of the map: `{"vaga_<n>":"<id>",...}`, or `{}`. */
  function Render(es: seq<Assignment>): string
  {
    Join(Fields(es))
  }

  /** Where each entry's fields sit among the fields of the entries. */
  lemma {:induction false} EntryFieldsAt(es: seq<Assignment>, j: nat)
    requires j < |es|
    ensures EntryFields(es)[4 * j] == SlotName(es[j].slot)
    ensures EntryFields(es)[4 * j + 1] == ":"
    ensures EntryFields(es)[4 * j + 2] == es[j].id
    ensures EntryFields(es)[4 * j + 3] == if j + 1 == |es| then "}" else ","
  {
    if j > 0 {
      EntryFieldsAt(es[1..], j - 1);
    }
  }

  /** Where each entry's fields sit in the rendered text's fields. */
  lemma FieldsAt(es: seq<Assignment>, j: nat)
    requires j < |es|
    ensures Fields(es)[0] == "{"
    ensures Fields(es)[4 * j + 1] == SlotName(es[j].slot)
    ensures Fields(es)[4 * j + 2] == ":"
    ensures Fields(es)[4 * j + 3] == es[j].id
    ensures Fields(es)[4 * j + 4] == if j + 1 == |es| then "}" else ","
  {
    var ef := EntryFields(es);
    EntryFieldsAt(es, j);
    assert Fields(es) == ["{"] + ef;
    assert Fields(es)[4 * j + 1] == ef[4 * j];
  }

  /**
   `fs` is laid out as the fields of the rendered text of the non-empty map
   `es`, as `FieldsAt` describes them. The lemmas below are stated over such
   an `fs` so that they need not unfold the rendering.
   */
  predicate Layout(es: seq<Assignment>, fs: seq<string>)
  {
    && |es| > 0 && |fs| == 4 * |es| + 1 && fs[0] == "{"
    && forall j :: 0 <= j < |es| ==>
         && fs[4 * j + 1] == SlotName(es[j].slot)
         && fs[4 * j + 2] == ":"
         && fs[4 * j + 3] == es[j].id
         && fs[4 * j + 4] == if j + 1 == |es| then "}" else ","
  }

  /** The fields of a non-empty map are laid out entry by entry. */
  lemma FieldsLayout(es: seq<Assignment>)
    requires |es| > 0
    ensures Layout(es, Fields(es))
  {
    forall j | 0 <= j < |es|
      ensures Fields(es)[4 * j + 1] == SlotName(es[j].slot) && Fields(es)[4 * j + 2] == ":"
      ensures Fields(es)[4 * j + 3] == es[j].id
      ensures Fields(es)[4 * j + 4] == if j + 1 == |es| then "}" else ","
    {
      FieldsAt(es, j);
    }
    FieldsAt(es, 0);
  }

  /** The rendered text of the empty map is `{}`. */
  lemma RenderEmpty(es: seq<Assignment>)
    requires |es| == 0
    ensures Render(es) == "{}"
  {
  }

  /** Every field after the opening brace belongs to one entry, in one of four roles. */
  lemma FieldRole(es: seq<Assignment>, g: nat)
    requires 1 <= g <= 4 * |es|
    ensures (g - 1) / 4 < |es| && g == 4 * ((g - 1) / 4) + 1 + (g - 1) % 4
  {
  }

  /** A slot name is `vaga_` and digits: no quote, and its only `v` is the first character. */
  lemma SlotNameShape(n: nat)
    ensures QuoteFree(SlotName(n)) && HasSlotPrefix(SlotName(n))
    ensures forall o :: 0 < o < |SlotName(n)| ==> SlotName(n)[o] != 'v'
    ensures forall o :: 0 < o ==> !OccursAt(SlotName(n), SlotPrefix, o)
  {
    var d := Decimal(n);
    assert SlotName(n) == SlotPrefix + d;
    forall o | 0 <= o < |SlotName(n)|
      ensures SlotName(n)[o] != '"' && (o > 0 ==> SlotName(n)[o] != 'v')
    {
      if o >= |SlotPrefix| {
        assert SlotName(n)[o] == d[o - |SlotPrefix|];
      }
    }
    forall o | 0 < o
      ensures !OccursAt(SlotName(n), SlotPrefix, o)
    {
      if o + |SlotPrefix| <= |SlotName(n)| {
        assert SlotName(n)[o..o + |SlotPrefix|][0] == SlotName(n)[o];
      }
    }
  }

  /** Distinct single-digit slots have distinct names. */
  lemma SlotNameInjective(n: nat, m: nat)
    requires n < 10 && m < 10
    requires SlotName(n) == SlotName(m)
    ensures n == m
  {
    assert SlotName(n)[|SlotPrefix|] == DigitChar(n);
    assert SlotName(m)[|SlotPrefix|] == DigitChar(m);
  }

  /** The fields of a well-formed map are quote-free. */
  lemma LayoutQuoteFree(es: seq<Assignment>, fs: seq<string>)
    requires WellFormed(es) && Layout(es, fs)
    ensures AllQuoteFree(fs)
  {
    forall g | 0 <= g < |fs|
      ensures QuoteFree(fs[g])
    {
      if g > 0 {
        FieldRole(es, g);
        var j := (g - 1) / 4;
        SlotNameShape(es[j].slot);
      }
    }
  }

  /** The key token of slot `n` is a quoted slot name followed by a colon. */
  lemma SlotKeyShape(n: nat)
    ensures SlotKey(n) == "\"" + SlotName(n) + "\"" + ":"
    ensures SlotKey(n)[..|SlotName(n)| + 2] == "\"" + SlotName(n) + "\""
  {
  }

  /** A key token found in the text belongs to an entry of the map. */
  lemma KeyOccurrenceAssigned(es: seq<Assignment>, fs: seq<string>, n: nat, i: nat)
    requires WellFormed(es) && Layout(es, fs) && 1 <= n <= TotalSlots
    requires OccursAt(Join(fs), SlotKey(n), i)
    ensures Assigned(es, n)
  {
    var T := Join(fs);
    var w := SlotName(n);
    LayoutQuoteFree(es, fs);
    SlotNameShape(n);
    SlotKeyShape(n);
    OccursPrefix(T, SlotKey(n), i, |w| + 2);
    QuotedWordAt(fs, w, i);
    var g := Locate(fs, i).0 + 1;
    FieldRole(es, g);
    var j := (g - 1) / 4;
    SlotNameShape(es[j].slot);
    if (g - 1) % 4 == 0 {
      SlotNameInjective(es[j].slot, n);
    }
    assert es[j].slot == n;
  }

  /** The key token of every assigned slot occurs in the text. */
  lemma AssignedKeyOccurs(es: seq<Assignment>, fs: seq<string>, j: nat)
    requires WellFormed(es) && Layout(es, fs) && j < |es|
    ensures KeyPresent(Join(fs), es[j].slot)
  {
    var T := Join(fs);
    var n := es[j].slot;
    var w := SlotName(n);
    SlotKeyShape(n);
    var g := 4 * j + 1;
    QuotedFieldOccurs(fs, g);
    StartStep(fs, g);
    CharAt(fs, g + 1, 0);
    var i := Start(fs, g) - 1;
    assert T[i..i + |SlotKey(n)|] == T[i..i + |w| + 2] + [T[i + |w| + 2]];
    assert OccursAt(T, SlotKey(n), i);
  }

  /**
   On the rendered text of a well-formed map, the key token of slot `n`
   occurs exactly when the map assigns slot `n`.
   */
  lemma KeyPresentIffAssigned(es: seq<Assignment>, n: nat)
    requires WellFormed(es) && 1 <= n <= TotalSlots
    ensures KeyPresent(Render(es), n) <==> Assigned(es, n)
  {
    if |es| == 0 {
      RenderEmpty(es);
      assert |SlotKey(n)| > 2;
    } else {
      var fs := Fields(es);
      FieldsLayout(es);
      if KeyPresent(Join(fs), n) {
        var i :| OccursAt(Join(fs), SlotKey(n), i);
        KeyOccurrenceAssigned(es, fs, n, i);
      }
      if Assigned(es, n) {
        var j :| 0 <= j < |es| && es[j].slot == n;
        AssignedKeyOccurs(es, fs, j);
      }
    }
  }

  /** The separator positions before the slot-name fields of the first `n` entries. */
  ghost function KeyStarts(fs: seq<string>, n: nat): set<int>
  {
    set j | 0 <= j < n && 4 * j + 1 < |fs| :: Start(fs, 4 * j + 1) - 1
  }

  /** The first `n` entries open their keys at `n` distinct positions. */
  lemma {:induction false} KeyStartsCount(fs: seq<string>, n: nat)
    requires 4 * n <= |fs|
    ensures |KeyStarts(fs, n)| == n
  {
    if n > 0 {
      var m := n - 1;
      KeyStartsCount(fs, m);
      var x := Start(fs, 4 * m + 1) - 1;
      forall y | y in KeyStarts(fs, m)
        ensures y < x
      {
        var j :| 0 <= j < m && 4 * j + 1 < |fs| && y == Start(fs, 4 * j + 1) - 1;
        StartMonotone(fs, 4 * j + 1, 4 * m + 1);
      }
      assert KeyStarts(fs, n) == KeyStarts(fs, m) + {x};
    }
  }

  /** A key prefix `"vaga_` found in the text opens the key of an entry. */
  lemma KeyPrefixOpensKey(es: seq<Assignment>, fs: seq<string>, x: int)
    requires WellFormed(es) && Layout(es, fs)
    requires OccursAt(Join(fs), KeyPrefix, x)
    ensures x in KeyStarts(fs, |es|)
  {
    LayoutQuoteFree(es, fs);
    SlotNameShape(0);
    assert KeyPrefix == "\"" + SlotPrefix;
    QuotePrefixAt(fs, SlotPrefix, x);
    var f := Locate(fs, x).0;
    var g := f + 1;
    StartStep(fs, f);
    FieldRole(es, g);
    var j := (g - 1) / 4;
    assert (g - 1) % 4 == 0;
  }

  /** The key of every entry opens with the key prefix. */
  lemma KeyOpensWithPrefix(es: seq<Assignment>, fs: seq<string>, j: nat)
    requires WellFormed(es) && Layout(es, fs) && j < |es|
    ensures Start(fs, 4 * j + 1) >= 1
    ensures OccursAt(Join(fs), KeyPrefix, Start(fs, 4 * j + 1) - 1)
  {
    SlotNameShape(es[j].slot);
    assert KeyPrefix == "\"" + SlotPrefix;
    QuotePrefixOccurs(fs, 4 * j + 1, SlotPrefix);
  }

  /** The key prefix `"vaga_` occurs exactly where an entry's key opens. */
  lemma KeyPrefixOccurrences(es: seq<Assignment>, fs: seq<string>)
    requires WellFormed(es) && Layout(es, fs)
    ensures Occurrences(Join(fs), KeyPrefix, 0) == KeyStarts(fs, |es|)
  {
    var T := Join(fs);
    forall x | x in Occurrences(T, KeyPrefix, 0)
      ensures x in KeyStarts(fs, |es|)
    {
      KeyPrefixOpensKey(es, fs, x);
    }
    forall x | x in KeyStarts(fs, |es|)
      ensures x in Occurrences(T, KeyPrefix, 0)
    {
      var j :| 0 <= j < |es| && 4 * j + 1 < |fs| && x == Start(fs, 4 * j + 1) - 1;
      KeyOpensWithPrefix(es, fs, j);
    }
  }

  /** On the rendered text of a well-formed map, the occupied count is the number of entries. */
  lemma CountMatchesMap(es: seq<Assignment>)
    requires WellFormed(es)
    ensures OccupiedCount(Render(es)) == |es|
  {
    if |es| == 0 {
      RenderEmpty(es);
    } else {
      var fs := Fields(es);
      var T := Join(fs);
      FieldsLayout(es);
      KeyPrefixOccurrences(es, fs);
      KeyStartsCount(fs, |es|);
      CountFromOccurrences(T, KeyPrefix, 0);
      KeyOpensWithPrefix(es, fs, 0);
      assert |T| >= 5;
    }
  }

  /** The index of the first entry holding `id`, or -1 when no entry holds it. */
  function FirstHolder(es: seq<Assignment>, id: string): (r: int)
    ensures -1 <= r < |es|
    ensures r == -1 <==> forall j :: 0 <= j < |es| ==> es[j].id != id
    ensures r != -1 ==> es[r].id == id && forall j :: 0 <= j < r ==> es[j].id != id
  {
    if |es| == 0 then -1
    else if es[0].id == id then 0
    else
      var r' := FirstHolder(es[1..], id);
      if r' == -1 then -1 else r' + 1
  }

  /**
   An identifier that is storable and is neither of the one-character
   separators `:` and `,` can only be found quoted where an entry holds it.
   */
  predicate Searchable(id: string)
  {
    StorableId(id) && id != ":" && id != ","
  }

  /** A quoted identifier found in the text is the value of an entry holding it. */
  lemma QuotedIdOccurrence(es: seq<Assignment>, fs: seq<string>, id: string, x: nat) returns (j: nat)
    requires WellFormed(es) && Layout(es, fs) && Searchable(id)
    requires OccursAt(Join(fs), Quoted(id), x)
    ensures j < |es| && es[j].id == id && x + 1 == Start(fs, 4 * j + 3)
  {
    LayoutQuoteFree(es, fs);
    QuotedWordAt(fs, id, x);
    var f := Locate(fs, x).0;
    var g := f + 1;
    StartStep(fs, f);
    FieldRole(es, g);
    j := (g - 1) / 4;
    SlotNameShape(es[j].slot);
    assert (g - 1) % 4 == 2;
  }

  /** The value of every entry occurs quoted, at the separator before it. */
  lemma HolderIdOccurs(es: seq<Assignment>, fs: seq<string>, j: nat)
    requires Layout(es, fs) && j < |es|
    ensures Start(fs, 4 * j + 3) >= 1
    ensures OccursAt(Join(fs), Quoted(es[j].id), Start(fs, 4 * j + 3) - 1)
  {
    QuotedFieldOccurs(fs, 4 * j + 3);
  }

  /** The first occurrence of a quoted identifier is the value of the first entry holding it. */
  lemma FirstHolderOccurrence(es: seq<Assignment>, fs: seq<string>, id: string, j0: nat)
    requires WellFormed(es) && Layout(es, fs) && Searchable(id)
    requires j0 < |es| && es[j0].id == id && forall j :: 0 <= j < j0 ==> es[j].id != id
    ensures Start(fs, 4 * j0 + 3) >= 1
    ensures IsFirstOccurrence(Join(fs), Quoted(id), Start(fs, 4 * j0 + 3) - 1)
  {
    HolderIdOccurs(es, fs, j0);
    forall x: nat | OccursAt(Join(fs), Quoted(id), x)
      ensures x + 1 >= Start(fs, 4 * j0 + 3)
    {
      var j := QuotedIdOccurrence(es, fs, id, x);
      StartOrdered(fs, 4 * j0 + 3, 4 * j + 3);
    }
  }

  /**
   No `vaga_` starts inside an entry's slot name after its first character,
   in the colon field, or on the quotes around them.
   */
  lemma NoSlotPrefixInKey(es: seq<Assignment>, fs: seq<string>, j: nat, x: nat)
    requires WellFormed(es) && Layout(es, fs) && j < |es|
    requires Start(fs, 4 * j + 1) < x < Start(fs, 4 * j + 3)
    ensures !OccursAt(Join(fs), SlotPrefix, x)
  {
    SlotNameShape(es[j].slot);
    LayoutQuoteFree(es, fs);
    SlotNameShape(0);
    if OccursAt(Join(fs), SlotPrefix, x) {
      InsideOneField(fs, SlotPrefix, x);
      var r := Locate(fs, x);
      if r.0 < 4 * j + 1 {
        StartMonotone(fs, r.0, 4 * j + 1);
      } else if r.0 > 4 * j + 3 {
        StartMonotone(fs, 4 * j + 3, r.0);
      }
    }
  }

  /** An entry's slot name sits between quotes in the text and starts with `vaga_`. */
  lemma SlotNameInText(es: seq<Assignment>, fs: seq<string>, j: nat)
    requires Layout(es, fs) && j < |es|
    ensures WordUpToQuote(Join(fs), Start(fs, 4 * j + 1), SlotName(es[j].slot))
    ensures OccursAt(Join(fs), SlotPrefix, Start(fs, 4 * j + 1))
    ensures Start(fs, 4 * j + 3) == Start(fs, 4 * j + 1) + |SlotName(es[j].slot)| + 3
  {
    var T := Join(fs);
    var w := SlotName(es[j].slot);
    var k := Start(fs, 4 * j + 1);
    SlotNameShape(es[j].slot);
    BetweenQuotes(fs, 4 * j + 1);
    StartStep(fs, 4 * j + 1);
    StartStep(fs, 4 * j + 2);
    assert T[k..k + |SlotPrefix|] == w[..|SlotPrefix|];
  }

  /**
   Looking back from the quoted value of entry `j`, the nearest `vaga_` is
   the start of that entry's slot name.
   */
  lemma SlotNameBeforeValue(es: seq<Assignment>, fs: seq<string>, j: nat)
    requires WellFormed(es) && Layout(es, fs) && j < |es|
    ensures Start(fs, 4 * j + 3) >= 1
    ensures IsLastAtOrBefore(Join(fs), SlotPrefix, Start(fs, 4 * j + 1), Start(fs, 4 * j + 3) - 1)
  {
    SlotNameInText(es, fs, j);
    forall x: nat | Start(fs, 4 * j + 1) < x <= Start(fs, 4 * j + 3) - 1
      ensures !OccursAt(Join(fs), SlotPrefix, x)
    {
      NoSlotPrefixInKey(es, fs, j, x);
    }
  }

  /** What `FindOccupiedVagaSpec` gives once the occurrences are known: a quote-free word up to a quote. */
  lemma FoundUpToQuote(id: string, text: string, m: int, k: int)
    requires IsFirstOccurrence(text, Quoted(id), m) && IsLastAtOrBefore(text, SlotPrefix, k, m)
    ensures QuoteFree(FindOccupiedVaga(id, text)) && WordUpToQuote(text, k, FindOccupiedVaga(id, text))
  {
    FindOccupiedVagaSpec(id, text);
  }

  /**
   The two searches of `findOccupiedVaga` on laid-out text where `id` is
   first held by entry `j0`: the quoted identifier is first found at that
   entry's value, and the nearest `vaga_` before it opens that entry's slot
   name.
   */
  lemma HeldOccurrences(es: seq<Assignment>, fs: seq<string>, id: string, j0: nat)
    requires WellFormed(es) && Layout(es, fs) && Searchable(id)
    requires j0 < |es| && es[j0].id == id && forall j :: 0 <= j < j0 ==> es[j].id != id
    ensures Start(fs, 4 * j0 + 3) >= 1
    ensures IsFirstOccurrence(Join(fs), Quoted(id), Start(fs, 4 * j0 + 3) - 1)
    ensures IsLastAtOrBefore(Join(fs), SlotPrefix, Start(fs, 4 * j0 + 1), Start(fs, 4 * j0 + 3) - 1)
  {
    FirstHolderOccurrence(es, fs, id, j0);
    SlotNameBeforeValue(es, fs, j0);
  }

  /** `findOccupiedVaga` on laid-out text of a map in which `id` is held. */
  lemma FindOccupiedHeld(es: seq<Assignment>, fs: seq<string>, id: string, j0: nat)
    requires WellFormed(es) && Layout(es, fs) && Searchable(id)
    requires j0 < |es| && es[j0].id == id && forall j :: 0 <= j < j0 ==> es[j].id != id
    ensures FindOccupiedVaga(id, Join(fs)) == SlotName(es[j0].slot)
  {
    var T := Join(fs);
    var k := Start(fs, 4 * j0 + 1);
    HeldOccurrences(es, fs, id, j0);
    FoundUpToQuote(id, T, Start(fs, 4 * j0 + 3) - 1, k);
    SlotNameInText(es, fs, j0);
    SlotNameShape(es[j0].slot);
    UpToQuote(T, k, FindOccupiedVaga(id, T), SlotName(es[j0].slot));
  }

  /** `findOccupiedVaga` on laid-out text of a map in which no entry holds `id`. */
  lemma FindOccupiedUnheld(es: seq<Assignment>, fs: seq<string>, id: string)
    requires WellFormed(es) && Layout(es, fs) && Searchable(id)
    requires forall j :: 0 <= j < |es| ==> es[j].id != id
    ensures FindOccupiedVaga(id, Join(fs)) == ""
  {
    var T := Join(fs);
    forall m: nat
      ensures !OccursAt(T, Quoted(id), m)
    {
      if OccursAt(T, Quoted(id), m) {
        var j := QuotedIdOccurrence(es, fs, id, m);
      }
    }
    FindOccupiedVagaSpec(id, T);
  }

  /**
   On the rendered text of a well-formed map, `findOccupiedVaga` answers the
   slot name of the first entry holding the identifier, and "" when no entry
   holds it.
   */
  lemma FindOccupiedMatchesMap(es: seq<Assignment>, id: string)
    requires WellFormed(es) && Searchable(id)
    ensures var j := FirstHolder(es, id);
            FindOccupiedVaga(id, Render(es)) == if j == -1 then "" else SlotName(es[j].slot)
  {
    var j0 := FirstHolder(es, id);
    if |es| == 0 {
      RenderEmpty(es);
      var q := Quoted(id);
      forall m: nat
        ensures !OccursAt("{}", q, m)
      {
        if m + |q| <= 2 {
          assert "{}"[m..m + |q|][0] == "{}"[m];
        }
      }
      FindOccupiedVagaSpec(id, Render(es));
    } else {
      FieldsLayout(es);
      if j0 == -1 {
        FindOccupiedUnheld(es, Fields(es), id);
      } else {
        FindOccupiedHeld(es, Fields(es), id, j0);
      }
    }
  }
}
