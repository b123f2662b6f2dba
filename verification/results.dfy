/**
 * The retrieval tool's response, as both the session-state callback and the explanation
 * tool read it: a dict whose `results` list holds entries with an optional `text`.
 */
module Results {
  import opened Wrappers

  /** One entry of a retrieval response's `results` list; `text` is `None` when the entry has no `text` key. */
  datatype ResultItem = ResultItem(text: Option<string>)

  /** A tool's response payload: a dict with a `results` key (its other keys kept in
      `fields`), or anything else. The explanation tool is modelled on dicts only, so
      there `Other` is a dict without `results`. */
  datatype Response =
    | Retrieval(results: seq<ResultItem>, fields: map<string, string>)
    | Other

  /** `result.get("text", "")`. */
  function TextOf(item: ResultItem): (r: string)
    ensures item.text.Some? ==> r == item.text.value
    ensures item.text.None? ==> r == ""
  {
    if item.text.Some? then item.text.value else ""
  }

  /** The texts of all results, in order. */
  function Texts(results: seq<ResultItem>): (r: seq<string>)
    ensures |r| == |results|
    ensures forall k :: 0 <= k < |results| ==> r[k] == TextOf(results[k])
  {
    seq(|results|, k requires 0 <= k < |results| => TextOf(results[k]))
  }
}
