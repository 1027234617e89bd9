/**
 Input screening of the parking controller: the length gate applied to a
 trimmed input line, and the lookup of an identifier in the fixed table of
 authorised motorcycles.
 */
module Allowlist {

  /** The identifiers of the authorised motorcycles, in table order. */
  const MotoIds: seq<string> := ["RFID-HNIPORNE", "RFID002", "RFID003", "RFID004", "RFID005"]

  /** The size of the table. */
  const NumValidMotos: nat := 5

  /** `isValidFormat`: an input line is accepted when it is longer than three bytes: `length()` counts the bytes of the String, one `char` each here. */
  predicate IsValidFormat(input: string)
  {
    |input| > 3
  }

  /**
   The table scan of `findMotoIndex` from position `i` on: the first position
   at or after `i` holding exactly `id`, or -1.
   */
  function FindFrom(id: string, i: nat): (r: int)
    ensures r == -1 || (i <= r < |MotoIds| && MotoIds[r] == id)
    ensures r != -1 ==> forall j :: i <= j < r ==> MotoIds[j] != id
    ensures r == -1 <==> forall j :: i <= j < |MotoIds| ==> MotoIds[j] != id
    decreases |MotoIds| - i
  {
    if i >= |MotoIds| then -1
    else if MotoIds[i] == id then i
    else FindFrom(id, i + 1)
  }

  /**
   `findMotoIndex`: the position of the first table entry equal to `id`
   (exact, case-sensitive comparison), or -1 when no entry equals it.
   */
  function FindMotoIndex(id: string): (r: int)
    ensures -1 <= r < NumValidMotos
    ensures r == -1 <==> id !in MotoIds
    ensures r != -1 ==> MotoIds[r] == id && forall j :: 0 <= j < r ==> MotoIds[j] != id
  {
    FindFrom(id, 0)
  }
}
