/**
 * The extracted records.  A record is a JSON object the model returned;
 * the pipeline reads only its "key", "value" and "context" members, each
 * of which may be missing (`row.get(...)` gives `None`).
 */
module Records {
  import opened Optional

  /** One decoded JSON object.  `extra` holds any further members; they are
      carried along but never compared. */
  datatype Row = Row(
    key: Option<string>,
    value: Option<string>,
    context: Option<string>,
    extra: map<string, string>)

  /** `(row.get("key"), row.get("value"), row.get("context"))`. */
  type Triple = (Option<string>, Option<string>, Option<string>)

  function TripleOf(r: Row): (t: Triple)
    ensures ContextOfTriple(t) == ContextOf(r)
  {
    (r.key, r.value, r.context)
  }

  /** `row.get("context", "")`: a missing context reads as the empty string. */
  function ContextOf(r: Row): string
  {
    r.context.GetOr("")
  }

  /** The context as the second stage reads it, recovered from a triple. */
  function ContextOfTriple(t: Triple): string
  {
    t.2.GetOr("")
  }

  /** `{"key": "raw_text", "value": text, "context": text}`. */
  function RawText(text: string): Row
  {
    Row(Some("raw_text"), Some(text), Some(text), map[])
  }

  /** A JSON decoder for arrays of records: `None` when `json.loads` raises. */
  type Decoder = string -> Option<seq<Row>>

  /** Section 2 of RFC 8259: a JSON text holds a value, so the empty text is rejected. */
  predicate RejectsEmpty(decode: Decoder)
  {
    decode([]) == None
  }
}
