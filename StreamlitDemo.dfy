/**
 * The interactive demo: the normalisation inside `chunk`, the lenient JSON
 * slice extraction `safe_json` (which falls back to no rows at all), and
 * `clean_rows`, both deduplication stages in one function.
 */
module StreamlitDemo {
  import opened Optional
  import opened PyText
  import opened Normalize
  import opened Records
  import opened FirstSeen
  import opened Dedup
  import MainScript

  /** The text `chunk` hands to `textwrap.wrap`: `" ".join(text.split())`,
      the very line `split_chunks` runs in the batch script. */
  function ChunkCleaned(text: string): (cleaned: string)
    ensures WellSpaced(cleaned)
    ensures Split(cleaned) == Split(text)
    ensures Split(text) != [] ==> SplitOn(cleaned, ' ') == Split(text)
    ensures Split(text) == [] <==> cleaned == []
  {
    MainScript.SplitChunksCleaned(text)
  }

  /** `safe_json`: decode the text from the first '[' to the last ']',
      returning no rows when a bracket is missing or decoding fails. */
  function SafeJson(data: string, decode: Decoder): (rows: seq<Row>)
    ensures '[' !in data || ']' !in data ==> rows == []
    ensures rows != [] ==>
      && '[' in data && ']' in data
      && decode(Slice(data, Find(data, '['), RFind(data, ']') + 1)) == Some(rows)
  {
    var s, e := Find(data, '['), RFind(data, ']');
    if s == -1 || e == -1 then []
    else
      match decode(Slice(data, s, e + 1))
      case Some(parsed) => parsed
      case None => []
  }

  /** Without a '[' or without a ']' there are no rows. */
  lemma SafeJsonNoBrackets(data: string, decode: Decoder)
    requires '[' !in data || ']' !in data
    ensures SafeJson(data, decode) == []
  {
  }

  /** With the first '[' at `s` and the last ']' at `e >= s`, the result is
      exactly what the decoder makes of `data[s..e]` inclusive, or no rows. */
  lemma SafeJsonDecodesSlice(data: string, decode: Decoder, s: nat, e: nat)
    requires s < |data| && data[s] == '[' && '[' !in data[..s]
    requires e < |data| && data[e] == ']' && ']' !in data[e + 1..]
    requires s <= e
    ensures decode(data[s..e + 1]).Some? ==> SafeJson(data, decode) == decode(data[s..e + 1]).value
    ensures decode(data[s..e + 1]).None? ==> SafeJson(data, decode) == []
  {
    FindAt(data, '[', s);
    RFindAt(data, ']', e);
  }

  /** When the last ']' comes before the first '[', the empty slice is
      rejected and there are no rows. */
  lemma SafeJsonReversedBrackets(data: string, decode: Decoder, s: nat, e: nat)
    requires s < |data| && data[s] == '[' && '[' !in data[..s]
    requires e < |data| && data[e] == ']' && ']' !in data[e + 1..]
    requires e < s
    requires RejectsEmpty(decode)
    ensures SafeJson(data, decode) == []
  {
    FindAt(data, '[', s);
    RFindAt(data, ']', e);
  }

  /** The two scripts agree except on the fallback: where `safe_json` gives
      no rows because nothing decoded, `safe_parse` gives the "raw_text" record. */
  lemma FallbackPolicies(text: string, decode: Decoder)
    ensures MainScript.SafeParse(text, decode) == SafeJson(text, decode)
         || (SafeJson(text, decode) == [] && MainScript.SafeParse(text, decode) == [RawText(text)])
    ensures SafeJson(text, decode) != [] ==> MainScript.SafeParse(text, decode) == SafeJson(text, decode)
  {
  }

  /** `clean_rows`: keep the first row of each triple, then the first row of
      each context (a missing context counting as "").  The result is the
      first row of each context of `records`, in input order. */
  method CleanRows(records: seq<Row>) returns (final: seq<Row>)
    ensures final == UniqueContexts(UniqueTriples(records))
    ensures final == UniqueContexts(records)
    ensures FirstsOf(final, records, ContextOf)
    ensures IsSubseq(final, records)
    ensures Distinct(final, ContextOf) && Distinct(final, TripleOf)
    ensures Keys(final, ContextOf) == Keys(records, ContextOf)
  {
    var uniqueRows: seq<Row>, seenRows: set<Triple> := [], {};
    for i := 0 to |records|
      invariant seenRows == Keys(records[..i], TripleOf)
      invariant uniqueRows == KeepFirst(records[..i], TripleOf)
    {
      var r := records[i];
      var t := TripleOf(r);
      assert records[..i + 1] == records[..i] + [r];
      KeepFirstSnoc(records[..i], r, TripleOf);
      if t !in seenRows {
        seenRows := seenRows + {t};
        uniqueRows := uniqueRows + [r];
      }
    }
    assert records[..|records|] == records;

    var seenContext: set<string> := {};
    final := [];
    for i := 0 to |uniqueRows|
      invariant seenContext == Keys(uniqueRows[..i], ContextOf)
      invariant final == KeepFirst(uniqueRows[..i], ContextOf)
    {
      var r := uniqueRows[i];
      var ctx := ContextOf(r);
      assert uniqueRows[..i + 1] == uniqueRows[..i] + [r];
      KeepFirstSnoc(uniqueRows[..i], r, ContextOf);
      if ctx !in seenContext {
        seenContext := seenContext + {ctx};
        final := final + [r];
      }
    }
    assert uniqueRows[..|uniqueRows|] == uniqueRows;

    TwoStagesAreOne(records);
    KeepFirstIsFirsts(records, ContextOf);
    KeepFirstSubseq(records, ContextOf);
    KeepFirstDistinct(records, ContextOf);
    KeepFirstKeys(records, ContextOf);
    DistinctContextsDistinctTriples(final);
  }
}
