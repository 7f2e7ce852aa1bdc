/**
 * The batch script: the normalisation inside `split_chunks`, the lenient
 * JSON slice extraction `safe_parse` (which falls back to a single
 * "raw_text" record), and the two deduplication loops of the main block.
 */
module MainScript {
  import opened Optional
  import opened PyText
  import opened Normalize
  import opened Records
  import opened FirstSeen
  import opened Dedup

  /** The text `split_chunks` hands to `textwrap.wrap`: `" ".join(text.split())`. */
  function SplitChunksCleaned(text: string): (cleaned: string)
    ensures WellSpaced(cleaned)
    ensures Split(cleaned) == Split(text)
    ensures Split(text) != [] ==> SplitOn(cleaned, ' ') == Split(text)
    ensures Split(text) == [] <==> cleaned == []
  {
    CollapseSplitOnSpace(text);
    Collapse(text)
  }

  /** `safe_parse`: decode the text from the first '[' to the last ']',
      falling back to one "raw_text" record holding the whole reply. */
  function SafeParse(jsonText: string, decode: Decoder): (rows: seq<Row>)
    ensures '[' !in jsonText || ']' !in jsonText ==> rows == [RawText(jsonText)]
    ensures rows != [RawText(jsonText)] ==>
      && '[' in jsonText && ']' in jsonText
      && decode(Slice(jsonText, Find(jsonText, '['), RFind(jsonText, ']') + 1)) == Some(rows)
  {
    var start := Find(jsonText, '[');
    var end := RFind(jsonText, ']');
    if start == -1 || end == -1 then [RawText(jsonText)]
    else
      match decode(Slice(jsonText, start, end + 1))
      case Some(parsed) => parsed
      case None => [RawText(jsonText)]
  }

  /** Without a '[' or without a ']' the reply becomes the fallback record. */
  lemma SafeParseNoBrackets(jsonText: string, decode: Decoder)
    requires '[' !in jsonText || ']' !in jsonText
    ensures SafeParse(jsonText, decode) == [RawText(jsonText)]
  {
  }

  /** With the first '[' at `s` and the last ']' at `e >= s`, the decoder sees
      exactly `jsonText[s..e]` inclusive; its rows are returned, and its
      failure yields the fallback record. */
  lemma SafeParseDecodesSlice(jsonText: string, decode: Decoder, s: nat, e: nat)
    requires s < |jsonText| && jsonText[s] == '[' && '[' !in jsonText[..s]
    requires e < |jsonText| && jsonText[e] == ']' && ']' !in jsonText[e + 1..]
    requires s <= e
    ensures decode(jsonText[s..e + 1]).Some? ==> SafeParse(jsonText, decode) == decode(jsonText[s..e + 1]).value
    ensures decode(jsonText[s..e + 1]).None? ==> SafeParse(jsonText, decode) == [RawText(jsonText)]
  {
    FindAt(jsonText, '[', s);
    RFindAt(jsonText, ']', e);
  }

  /** When the last ']' comes before the first '[', the slice is empty, no JSON
      decoder accepts it, and the fallback record is returned. */
  lemma SafeParseReversedBrackets(jsonText: string, decode: Decoder, s: nat, e: nat)
    requires s < |jsonText| && jsonText[s] == '[' && '[' !in jsonText[..s]
    requires e < |jsonText| && jsonText[e] == ']' && ']' !in jsonText[e + 1..]
    requires e < s
    requires RejectsEmpty(decode)
    ensures SafeParse(jsonText, decode) == [RawText(jsonText)]
  {
    FindAt(jsonText, '[', s);
    RFindAt(jsonText, ']', e);
  }

  /** main.py lines 98-105: keep a row only the first time its (key, value, context) triple is seen. */
  method RemoveDuplicateRows(final: seq<Row>) returns (cleaned: seq<Row>)
    ensures cleaned == UniqueTriples(final)
    ensures Distinct(cleaned, TripleOf)
    ensures IsSubseq(cleaned, final)
    ensures Keys(cleaned, TripleOf) == Keys(final, TripleOf)
  {
    cleaned := [];
    var seen: set<Triple> := {};
    for i := 0 to |final|
      invariant seen == Keys(final[..i], TripleOf)
      invariant cleaned == KeepFirst(final[..i], TripleOf)
    {
      var row := final[i];
      var triple := TripleOf(row);
      assert final[..i + 1] == final[..i] + [row];
      KeepFirstSnoc(final[..i], row, TripleOf);
      if triple !in seen {
        seen := seen + {triple};
        cleaned := cleaned + [row];
      }
    }
    assert final[..|final|] == final;
    KeepFirstDistinct(final, TripleOf);
    KeepFirstSubseq(final, TripleOf);
    KeepFirstKeys(final, TripleOf);
  }

  /** main.py lines 110-117: keep a row only the first time its context is seen,
      a missing context counting as "". */
  method RemoveDuplicateComments(cleaned: seq<Row>) returns (uniqueRecords: seq<Row>)
    ensures uniqueRecords == UniqueContexts(cleaned)
    ensures Distinct(uniqueRecords, ContextOf)
    ensures IsSubseq(uniqueRecords, cleaned)
    ensures Keys(uniqueRecords, ContextOf) == Keys(cleaned, ContextOf)
  {
    uniqueRecords := [];
    var seenContext: set<string> := {};
    for i := 0 to |cleaned|
      invariant seenContext == Keys(cleaned[..i], ContextOf)
      invariant uniqueRecords == KeepFirst(cleaned[..i], ContextOf)
    {
      var row := cleaned[i];
      var context := ContextOf(row);
      assert cleaned[..i + 1] == cleaned[..i] + [row];
      KeepFirstSnoc(cleaned[..i], row, ContextOf);
      if context !in seenContext {
        seenContext := seenContext + {context};
        uniqueRecords := uniqueRecords + [row];
      }
    }
    assert cleaned[..|cleaned|] == cleaned;
    KeepFirstDistinct(cleaned, ContextOf);
    KeepFirstSubseq(cleaned, ContextOf);
    KeepFirstKeys(cleaned, ContextOf);
  }

  /** main.py lines 98-119: both stages in turn.  The result is the first row of each
      context of `final`, in input order, so no two rows share a triple or a
      context and every context of `final` survives. */
  method Deduplicate(final: seq<Row>) returns (records: seq<Row>)
    ensures records == UniqueContexts(UniqueTriples(final))
    ensures records == UniqueContexts(final)
    ensures FirstsOf(records, final, ContextOf)
    ensures Distinct(records, ContextOf) && Distinct(records, TripleOf)
    ensures Keys(records, ContextOf) == Keys(final, ContextOf)
  {
    var cleaned := RemoveDuplicateRows(final);
    records := RemoveDuplicateComments(cleaned);
    TwoStagesAreOne(final);
    KeepFirstIsFirsts(final, ContextOf);
    KeepFirstKeys(final, ContextOf);
    DistinctContextsDistinctTriples(records);
  }
}
