# Parking-slot access controller — Dafny model of the decision core

The controller (`CodigoWokwi.c++`, an ESP32 sketch) reads a motorcycle
identifier from the serial line, checks it against a fixed allowlist of five
identifiers, and then lets the motorcycle leave its slot, enter the lowest
free one of five slots (`vaga_1` … `vaga_5`), or denies it. The occupancy
map lives in a remote store and reaches the controller as raw object text
such as `{"vaga_2":"RFID002"}`; the controller never parses it and answers
all its questions by substring search on that text.

This project models that core as pure functions over `string`
(`seq<char>`). An Arduino `String` is a buffer of bytes, and each `char`
stands for one byte of it: `|s|` is `length()`, positions are byte offsets,
and a character that takes several bytes (such as `ñ`) is modelled as that
many `char`s. The allowlist, the slot names and the text's structure are
plain ASCII.

- `ArduinoString` — the Arduino `String` primitives the core uses:
  `indexOf(p, from)`, `lastIndexOf(p, from)`, `substring(l, r)`, with the
  library's edge cases (an out-of-range `from` answers -1; `lastIndexOf`
  answers -1 for an empty pattern and clamps `from`; `substring` swaps and
  clamps its bounds), plus the occurrence count used as a reference for the
  counting loop.
- `Occupancy` — `findNextAvailableVaga`, `findOccupiedVaga` and
  `countOccupiedVagas` (the last one as a method with the source's search
  loop), the slot naming `vaga_<n>` and the key token `"vaga_<n>":`.
- `Allowlist` — `isValidFormat` and `findMotoIndex` over the fixed table
  `MOTO_IDS`.
- `Access` — the branch structure of `loop` as `Decide(input, text)`,
  returning `Invalid | Denied | Entry(slot) | Exit(slot)`, with lemmas for
  each branch.
- `QuotedText` — text laid out as quote-free fields separated by single
  quotes, the shape of the store's object text, and where a pattern can
  occur in it.
- `OccupancyMap` — the occupancy map itself (slot number to identifier),
  its rendering `{"vaga_<n>":"<id>",...}` (or `{}`), and the theorems that
  the three substring searches answer on that text what the map says.
- `MapDecision` — a reference decision stated on the map (holder exits
  through its slot, newcomer takes the lowest unassigned slot while fewer
  than five are assigned) and the theorem that `Decide` on the rendered
  text of any well-formed map equals it.
- `Lifecycle` — the store as the controller's own writes change it (the key
  of a granted slot is written, the key of a released slot deleted), when
  every read returns the store's text, and the invariants those decisions
  then keep: slots distinct and in range, no identifier parked twice, only
  authorised identifiers stored.
- `FailedRead` — the fail-open path: a read that fails while Wi-Fi stays up
  yields `{}`, the controller grants `vaga_1` to any authorised identifier,
  and the write still reaches the store, replacing whatever `vaga_1` held.
  Slots stay distinct, but an identifier that already holds a slot other
  than `vaga_1` is parked twice, and whoever else held `vaga_1` loses that
  slot without leaving.
- `Scenarios` — worked examples on concrete occupancy texts.

In `Access` the occupancy text is a free parameter: whatever the store
returned, including the `{}` the controller substitutes when the read
fails. `OccupancyMap`, `MapDecision` and `Lifecycle` then restrict it to
renderings of a map, in any entry order; the `null` the store answers for
an empty map is covered separately (`MapDecision.NullIsEmptyStore`).

## Model

| member | source | states |
|---|---|---|
| ArduinoString.IndexOf | CodigoWokwi.c++:254 | `indexOf(p, from)` is the first position at or after `from` where `p` occurs, and -1 exactly when `p` occurs at no position in `[from, len)` |
| ArduinoString.LastAtOrBefore | CodigoWokwi.c++:231 | the backward scan finds the last occurrence at or before `k`, and -1 exactly when there is none in `[0, k]` |
| ArduinoString.LastIndexOf | CodigoWokwi.c++:231 | `lastIndexOf(p, from)` is the last occurrence starting at or before `from`, and -1 exactly when the pattern is empty or has no occurrence in `[0, from]` |
| ArduinoString.Substring | CodigoWokwi.c++:239 | `substring(left, right)` is the text between the smaller and the larger bound, the larger lowered to the length, and "" once the smaller bound is at or past the end, so the order of the bounds does not matter |
| ArduinoString.CountFromOccurrences | CodigoWokwi.c++:251-259 | the recursive count equals the number of distinct positions at or after `from` where the pattern occurs |
| ArduinoString.CountAtNext | CodigoWokwi.c++:254-258 | one `indexOf` step of the counting loop: when it finds nothing the remaining count is 0, otherwise it is one more than the count after the hit |
| ArduinoString.CountSkip | CodigoWokwi.c++:253-259 | jumping over a stretch with no occurrence (what each `indexOf` call does) leaves the remaining count unchanged |
| ArduinoString.CountAtLeast | CodigoWokwi.c++:251-259 | any set of positions where a non-empty pattern occurs is at most the occurrence count |
| Allowlist.FindFrom | CodigoWokwi.c++:152-156 | the table scan from `i` returns the first position at or after `i` holding exactly `id`, and -1 exactly when no entry from `i` on equals `id` |
| Allowlist.FindMotoIndex | CodigoWokwi.c++:151-158 | the result lies in `[-1, 5)`; it is -1 exactly when `id` is not in the allowlist; otherwise `MOTO_IDS[r] == id` and no earlier entry equals `id` |
| Occupancy.KeySearch | CodigoWokwi.c++:214-215 | the `indexOf` test on the key token `"vaga_<n>":` succeeds exactly when that key occurs somewhere in the text |
| Occupancy.NextFreeFrom | CodigoWokwi.c++:211-218 | the slot loop from `n` returns a slot at or after `n` whose key is absent with every key in between present, or 6 when every remaining key is present |
| Occupancy.FindNextAvailableVaga | CodigoWokwi.c++:210-220 | the result is "" exactly when all five slot keys are present; otherwise it is `vaga_<n>` for the lowest `n` in 1..5 whose key is absent |
| Occupancy.FindOccupiedVaga | CodigoWokwi.c++:222-244 | a non-empty result starts with `vaga_`, and no result contains a quote |
| Occupancy.FindOccupiedVagaSpec | CodigoWokwi.c++:222-244 | the result is non-empty exactly when the quoted id occurs and a `vaga_` starts at or before its first occurrence; it is then the text from the last such `vaga_` up to the next quote, which lies no later than the id |
| Occupancy.SlotNameEndsAtQuote | CodigoWokwi.c++:236-241 | after a `vaga_` found before the quoted id, the next quote exists, lies past the prefix and no later than the id, so the final `return ""` is unreachable |
| Occupancy.OccupiedCountMeaning | CodigoWokwi.c++:247-260 | the count is 0 for `{}`, `null` and texts shorter than 5; otherwise it is the number of positions where `"vaga_` occurs |
| Occupancy.CountOccupiedVagas | CodigoWokwi.c++:246-261 | the search loop terminates (`index` strictly increases, stays below the length) and returns the `OccupiedCount` of the text, never negative |
| Occupancy.KeyOccurrence | CodigoWokwi.c++:212-214 | an occurrence of a single-digit slot key starts with `"vaga_` and carries the slot's digit right after it |
| Occupancy.AllKeysForceFullCount | CodigoWokwi.c++:247-259 | when all five slot keys are present, the count is at least five |
| Occupancy.NextFreeWhenNotFull | CodigoWokwi.c++:95-96 | when the count is below five, `findNextAvailableVaga` names a slot (never "") |
| Access.Decide | CodigoWokwi.c++:82-108 | the `loop` branch: `Invalid` exactly when the format gate fails; only an allowlisted identifier ever enters or leaves; an allowlisted one leaves exactly when `findOccupiedVaga` names a slot for it, through that slot; an entry carries the non-empty answer of `findNextAvailableVaga` and happens only while fewer than five slots are counted |
| Access.InvalidExactlyWhenShort | CodigoWokwi.c++:106-114 | `isValidFormat` and the gate: the outcome is `Invalid` exactly when the input's `length()` is at most three, whatever the occupancy text |
| Access.UnknownIdDenied | CodigoWokwi.c++:84-105 | a well-formed identifier outside the allowlist is `Denied`, whatever the occupancy text |
| Access.HolderExits | CodigoWokwi.c++:88-93 | an allowlisted identifier found in the text after a `vaga_` exits, releasing the quote-free text from that `vaga_` up to the next quote, whatever the count |
| Access.NewcomerEntersLowestFree | CodigoWokwi.c++:94-97 | an allowlisted identifier holding no slot, with a count below five, enters at the lowest-numbered slot whose key is absent |
| Access.FullLotDenies | CodigoWokwi.c++:94-101 | an allowlisted identifier holding no slot is `Denied` once the count reaches five |
| Access.OutcomeSlotsWellFormed | CodigoWokwi.c++:88-102 | an `Entry` slot is always a real `vaga_<n>` with an absent key (never ""); an `Exit` slot starts with `vaga_` and has no quote |
| QuotedText.StartMonotone | CodigoWokwi.c++:223-240 | in the store's text a later field starts after the end of an earlier one and the quote that closes it |
| QuotedText.Locate | CodigoWokwi.c++:223-240 | every position of the text is either a character of exactly one field or the quote that closes it |
| QuotedText.QuoteAt | CodigoWokwi.c++:223-240 | when the fields are quote-free, the quotes of the text are exactly the separators |
| QuotedText.InsideOneField | CodigoWokwi.c++:231 | a quote-free pattern such as `vaga_` found in the text lies inside a single field |
| QuotedText.QuotedWordAt | CodigoWokwi.c++:223-224 | a quoted word such as `"RFID002"` found in the text sits on a whole field equal to the word |
| QuotedText.QuotePrefixAt | CodigoWokwi.c++:251-254 | a quote followed by a word, such as `"vaga_`, is found exactly at the separator before a field starting with the word |
| QuotedText.UpToQuote | CodigoWokwi.c++:238-240 | two quote-free words read from one position up to a quote are equal |
| OccupancyMap.WellFormedFits | CodigoWokwi.c++:15 | a map with distinct slots among `vaga_1`..`vaga_5` has at most five entries |
| OccupancyMap.RenderEmpty | CodigoWokwi.c++:247 | the empty map renders as `{}` |
| OccupancyMap.FieldsAt | CodigoWokwi.c++:263-272 | in the text `Render` produces, each entry contributes its slot name, `:`, its identifier as written by `occupyVaga`, and `,` or the closing brace |
| OccupancyMap.SlotNameShape | CodigoWokwi.c++:212 | a slot name `vaga_<n>` is quote-free, starts with `vaga_`, and no `vaga_` starts inside it after its first character |
| OccupancyMap.KeyPresentIffAssigned | CodigoWokwi.c++:212-215 | on the rendered text of a well-formed map the key token `"vaga_<n>":` occurs exactly when the map assigns slot `n` |
| OccupancyMap.KeyPrefixOccurrences | CodigoWokwi.c++:251-259 | on that text `"vaga_` occurs exactly at the positions where an entry's key opens |
| OccupancyMap.KeyStartsCount | CodigoWokwi.c++:251-259 | the keys of distinct entries open at distinct positions |
| OccupancyMap.CountMatchesMap | CodigoWokwi.c++:247-260 | on the rendered text of a well-formed map `countOccupiedVagas` returns the number of entries |
| OccupancyMap.FirstHolder | CodigoWokwi.c++:88-93 | reference lookup on the map: the first entry holding an identifier, or -1 exactly when none holds it |
| OccupancyMap.QuotedIdOccurrence | CodigoWokwi.c++:223-224 | where the quoted identifier is found in the rendered text, an entry holding it has its value |
| OccupancyMap.SlotNameBeforeValue | CodigoWokwi.c++:231 | looking back from an entry's value, the nearest `vaga_` opens that entry's own slot name |
| OccupancyMap.FindOccupiedMatchesMap | CodigoWokwi.c++:222-244 | on the rendered text of a well-formed map `findOccupiedVaga` returns the slot name of the first entry holding the identifier, and "" when no entry holds it |
| MapDecision.LowestUnassigned | CodigoWokwi.c++:211-218 | reference slot choice on the map: the lowest slot from `n` on that no entry holds, with every slot before it held, or 6 |
| MapDecision.AllowlistSearchable | CodigoWokwi.c++:23-29 | every allowlisted identifier is quote-free, does not start with `vaga_`, and is neither `:` nor `,`, so it can only be found quoted at an entry's value |
| MapDecision.NextFreeMatchesMap | CodigoWokwi.c++:211-218 | on the rendered text the slot loop walks exactly the slots the map leaves unassigned |
| MapDecision.FindNextMatchesMap | CodigoWokwi.c++:210-220 | on the rendered text `findNextAvailableVaga` names the lowest unassigned slot, and "" exactly when all five are assigned |
| MapDecision.FreeSlotWhenNotFull | CodigoWokwi.c++:94-97 | a well-formed map with fewer than five entries leaves a slot unassigned, so an entry always has a slot to take |
| MapDecision.DecideMatchesMap | CodigoWokwi.c++:82-108 | on the rendered text of any well-formed map the controller's decision equals the reference decision on the map |
| MapDecision.NullIsEmptyStore | CodigoWokwi.c++:247 | on the `null` an empty store answers, the decision is the reference decision on the empty map, just as on its rendering `{}` |
| MapDecision.DecideOnMapOutcomes | CodigoWokwi.c++:88-102 | for an allowlisted identifier: exit exactly when some entry holds it, through a slot it holds; entry only at an unassigned slot with every lower slot assigned; denial only when five slots are taken |
| Lifecycle.Step | CodigoWokwi.c++:88-97 | with the read returning the store's text, one decision followed by its write (`occupyVaga` on entry, `releaseVaga` on exit) leaves every entry of every other identifier as it was and adds none for them |
| Lifecycle.RemovePreservesSane | CodigoWokwi.c++:279-289 | deleting one slot's key keeps the store sane and shrinks it by one |
| Lifecycle.AddPreservesSane | CodigoWokwi.c++:263-277 | writing a new authorised identifier under a free slot keeps the store sane |
| Lifecycle.StepPreservesSane | CodigoWokwi.c++:88-97 | when the read returns the store's text, one decision followed by its write keeps the store sane; after an entry the identifier holds the granted slot, after an exit it holds none, after a refusal nothing changed |
| Lifecycle.Run | CodigoWokwi.c++:77-109 | after any sequence of input lines, every entry of the store either was there at the start or belongs to an identifier read on one of the lines |
| Lifecycle.RunPreservesSane | CodigoWokwi.c++:77-109 | a sane store stays sane over any sequence of input lines whose reads all succeed |
| Lifecycle.SaneReordered | CodigoWokwi.c++:193-195 | the store listing a sane map's entries in another order is still sane |
| Lifecycle.DecideOnMapReorder | CodigoWokwi.c++:82-108 | the reference decision on a sane map does not depend on the order in which the store lists its entries |
| Lifecycle.StepEntryShape | CodigoWokwi.c++:94-97 | when the decision is an entry, the write appends the identifier under the lowest free slot and changes nothing else |
| Lifecycle.StepExitShape | CodigoWokwi.c++:92-93 | when the decision is an exit, the write removes exactly the identifier's entry, which exists |
| Lifecycle.StepReorder | CodigoWokwi.c++:82-108 | one input line on a sane store leaves the same entries whichever order the store lists them in |
| Lifecycle.FromEmptyStore | CodigoWokwi.c++:77-109 | starting from an empty store, every store reachable through successful reads, listed in any order, is sane and holds at most five entries, and every decision on its text is the reference decision |
| Lifecycle.NoDoubleParking | CodigoWokwi.c++:88-102 | on any store reachable through successful reads, listed in any order, entry is granted only to an identifier that holds no slot while a slot is free, and exit releases the slot the identifier holds |
| FailedRead.Put | CodigoWokwi.c++:263-272 | the PUT of an identifier under a slot key: the new entry is present, the old entry of that key is gone, every other entry is kept |
| FailedRead.FailedReadDecision | CodigoWokwi.c++:196-204 | on the `{}` of a failed read, an input passing the gate and the allowlist always gets `Entry` at `vaga_1`; no input can exit |
| FailedRead.FailedReadStep | CodigoWokwi.c++:196-204 | on a failed read an input passing the gate and the allowlist is written under `vaga_1`, replacing that key's entry; any other input leaves the store unchanged |
| FailedRead.FailedReadKeepsSlots | CodigoWokwi.c++:94-97 | after a failed read the slots are still distinct and in range and every stored identifier authorised |
| FailedRead.FailedReadDoubleParks | CodigoWokwi.c++:94-97 | an authorised identifier holding a slot other than `vaga_1`, arriving during a failed read, is then parked twice |
| FailedRead.FailedReadEvicts | CodigoWokwi.c++:94-97 | whoever held `vaga_1` when another authorised identifier arrives during a failed read holds no slot afterwards |
| FailedRead.DoubleParkedAfterFailedRead | CodigoWokwi.c++:196-204 | `RFID002`, parked in `vaga_3`, arrives during a failed read and the store is no longer sane |
| Scenarios.EmptyLotEntersFirstSlot | CodigoWokwi.c++:95-97 | on text `{}` an allowlisted identifier enters at `vaga_1` |
| Scenarios.ShortInputRejected | CodigoWokwi.c++:106-107 | a three-character input is `Invalid` even at a full lot |
| Scenarios.OneParkedRenders | CodigoWokwi.c++:263-272 | the map holding `RFID002` in slot 1 renders as `{"vaga_1":"RFID002"}` |
| Scenarios.HolderLeavesThroughOwnSlot | CodigoWokwi.c++:92-93 | on `{"vaga_1":"RFID002"}`, `RFID002` exits through `vaga_1` |
| Scenarios.NewcomerTakesNextSlot | CodigoWokwi.c++:94-97 | on `{"vaga_1":"RFID002"}`, `RFID003` enters at `vaga_2` |
| Scenarios.FullLotIsFull | CodigoWokwi.c++:247-259 | the text of five occupied slots counts exactly five |
| Scenarios.UnknownDeniedAtFullLot | CodigoWokwi.c++:103-104 | `RFID999` is denied at the full lot |
| Scenarios.NewcomerDeniedAtFullLot | CodigoWokwi.c++:98-101 | allowlisted `RFID003`, absent from the full lot, is denied |

## Left out

- Wi-Fi bring-up, `readOccupancyJson` and `logMovimento`: HTTP requests to the remote store. In `Access` the occupancy text is a parameter; the `{}` returned on a read failure is one of its values. A failed read with Wi-Fi up is modelled in `FailedRead`; with Wi-Fi down both the read and the write are skipped, so the store does not change although the decision is still acted on.
- Lifecycle.Step: takes the read to return the store's text; a failed read makes the controller decide on `{}`, which `FailedRead.FailedReadStep` models instead.
- Lifecycle.StepPreservesSane: holds only for steps whose read succeeded; `FailedRead.FailedReadDoubleParks` shows a failed read breaking the invariant.
- Lifecycle.Run: takes every read in the sequence to succeed, like `Lifecycle.Step`; its contract bounds which identifiers can appear, not how many slots each holds.
- Lifecycle.RunPreservesSane: every read in the sequence is taken to succeed, for the same reason.
- Lifecycle.FromEmptyStore: covers only stores reached through successful reads; a failed read can reach a store with an identifier parked twice.
- Lifecycle.NoDoubleParking: covers only stores reached through successful reads; on a failed read the controller grants `vaga_1` to an identifier that already holds a slot.
- `occupyVaga` and `releaseVaga` are modelled only by their effect on the map (`Lifecycle.Step`): the request always succeeds and nothing else writes to the store. A failed write, which would leave the store out of step with the controller, is not modelled.
- The store's own serialisation: `Render` lists entries in the given order with no whitespace. The store may list keys in another order; the map theorems hold for every order and `Lifecycle.FromEmptyStore` and `Lifecycle.NoDoubleParking` are stated for every reordering of the reachable map, but whitespace, escaped characters and non-string values are not modelled. The map theorems cover identifiers without quotes that do not start with `vaga_`, which includes every allowlisted identifier.
- OccupancyMap.FindOccupiedMatchesMap: stated for identifiers other than `:` and `,`; for those two the quoted search would also match the separators between keys and values, which the text-level `Occupancy.FindOccupiedVagaSpec` still describes.
- The audit payload built in `logMovimento`: formatting around an HTTP POST.
- Pin writes, buzzer/LED/relay pulses and `delay(3000)`: hardware actuation and timing.
- Reading the serial line and `trim()`: `Decide` takes the already-trimmed input.
- `setup()`: hardware initialisation and diagnostics only.
- Races between the fetch and the write, and other controllers sharing the store: the model is one sequential controller.
- Embedded NUL characters: the library's `strstr` stops at the first NUL; the model treats every character alike.
- Integer widths: positions are unbounded integers; the texts a 32-bit `int` could not index do not arise on the device.
