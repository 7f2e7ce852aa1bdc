/**
 * The two deduplication stages both scripts run over the collected rows:
 * first by `(key, value, context)` triple, then by context with a missing
 * context read as "".  Because the context is a function of the triple,
 * the first stage never changes what the second one keeps.
 */
module Dedup {
  import opened Optional
  import opened Records
  import opened FirstSeen

  /** Stage 1: the first row of each triple. */
  ghost function UniqueTriples(rows: seq<Row>): seq<Row>
  {
    KeepFirst(rows, TripleOf)
  }

  /** Stage 2: the first row of each context, a missing context counting as "". */
  ghost function UniqueContexts(rows: seq<Row>): seq<Row>
  {
    KeepFirst(rows, ContextOf)
  }

  /** Stage 1 is redundant: both stages together keep the first row of each context. */
  lemma TwoStagesAreOne(rows: seq<Row>)
    ensures UniqueContexts(UniqueTriples(rows)) == UniqueContexts(rows)
  {
    KeepFirstCoarsen(rows, TripleOf, ContextOf, ContextOfTriple);
  }

  /** Rows with distinct contexts have distinct triples. */
  lemma DistinctContextsDistinctTriples(rows: seq<Row>)
    requires Distinct(rows, ContextOf)
    ensures Distinct(rows, TripleOf)
  {
    forall i, j | 0 <= i < j < |rows|
      ensures TripleOf(rows[i]) != TripleOf(rows[j])
    {
      assert ContextOf(rows[i]) == ContextOfTriple(TripleOf(rows[i]));
    }
  }

  /** Running both stages again on their own output changes nothing. */
  lemma TwoStagesIdempotent(rows: seq<Row>)
    ensures UniqueContexts(UniqueTriples(UniqueContexts(UniqueTriples(rows))))
         == UniqueContexts(UniqueTriples(rows))
  {
    TwoStagesAreOne(rows);
    TwoStagesAreOne(UniqueContexts(rows));
    KeepFirstIdempotent(rows, ContextOf);
  }

  /** Rows whose contexts are already distinct pass both stages unchanged. */
  lemma DistinctContextsUnchanged(rows: seq<Row>)
    requires Distinct(rows, ContextOf)
    ensures UniqueContexts(UniqueTriples(rows)) == rows
  {
    TwoStagesAreOne(rows);
    KeepFirstOfDistinct(rows, ContextOf);
  }

  /** A missing context and an empty one are different triples in stage 1
      but the same context in stage 2. */
  lemma MissingVersusEmptyContext(k: Option<string>, v: Option<string>)
    ensures var rows := [Row(k, v, None, map[]), Row(k, v, Some(""), map[])];
      UniqueTriples(rows) == rows && UniqueContexts(rows) == rows[..1]
  {
    var a, b := Row(k, v, None, map[]), Row(k, v, Some(""), map[]);
    assert [a] == [] + [a] && [a, b] == [a] + [b];
    KeepFirstSnoc([], a, TripleOf);
    KeepFirstSnoc([a], b, TripleOf);
    KeepFirstSnoc([], a, ContextOf);
    KeepFirstSnoc([a], b, ContextOf);
  }
}
