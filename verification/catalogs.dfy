/**
 * Normalisation of the not-ready, signout and wrap-up reason lists: the gadget
 * reports an empty list as an array holding one null, which is stored as the
 * empty list.
 */
module Catalogs {
  import opened Wrappers
  import opened Messages

  /** The list stored for an arriving (non-null) reason array. */
  function Normalized(raw: seq<Entry>): (r: seq<Entry>)
    ensures r == [] || r == raw
    ensures r == [] <==> raw == [] || raw[0].None?
  {
    if |raw| > 0 then
      if raw[0].Some? then raw else []
    else []
  }

  /** `[]` and `[null]` are both stored as `[]`; a list starting with a record is kept as it is. */
  lemma NormalizedExamples(a: Record, b: Record)
    ensures Normalized([]) == []
    ensures Normalized([None]) == []
    ensures Normalized([Some(a), Some(b)]) == [Some(a), Some(b)]
  {
  }
}
