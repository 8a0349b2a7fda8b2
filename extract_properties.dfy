/**
 * Properties of a whole run (Data/combine.py:68-141): when it produces no
 * output, what the saved matrix holds, and what it does not depend on.
 */
module ExtractProperties {
  import opened Wrappers
  import opened Sequences
  import opened Sorting
  import opened Combine

  /** The run stops before touching the embedding store exactly when the query holds no identifier. */
  lemma NoProteinIdsExit<T>(query: seq<Option<string>>, store: EmbeddingStore<T>, recordId: string, metric: string)
    requires metric in Metrics
    ensures ExtractSpec(query, store, recordId, metric) == NoProteinIds <==> forall x :: Some(x) !in query
  {
    var ids := Dedup(query);
    if ids != [] {
      assert ids[0] in ids;
    }
  }

  /** After the identifiers are known, the lookup stop is taken exactly when none is listed. */
  lemma NoIndicesResolvedFromStore<T>(proteinIds: seq<string>, store: EmbeddingStore<T>, recordId: string, metric: string)
    requires metric in Metrics
    ensures var outcome := ExtractFromStore(proteinIds, store, recordId, metric);
      outcome.NoIndicesResolved? <==>
        && store.proteinIds.Some?
        && DatasetName(metric).value in store.matrices
        && (forall x :: x in proteinIds ==> x !in store.proteinIds.value)
    ensures var outcome := ExtractFromStore(proteinIds, store, recordId, metric);
      outcome.NoIndicesResolved? ==> outcome.skipped == proteinIds
  {
    if store.proteinIds.Some? {
      NothingResolved(proteinIds, IndexMap(store.proteinIds.value));
    }
  }

  /**
   * The run stops after the lookup, warning about every identifier, exactly
   * when both datasets are present and none of the identifiers is listed.
   */
  lemma NoIndicesResolvedExit<T>(query: seq<Option<string>>, store: EmbeddingStore<T>, recordId: string, metric: string)
    requires metric in Metrics
    ensures var outcome := ExtractSpec(query, store, recordId, metric);
      outcome.NoIndicesResolved? <==>
        && (exists x :: Some(x) in query)
        && store.proteinIds.Some?
        && DatasetName(metric).value in store.matrices
        && (forall x :: Some(x) in query ==> x !in store.proteinIds.value)
    ensures var outcome := ExtractSpec(query, store, recordId, metric);
      outcome.NoIndicesResolved? ==> outcome.skipped == Dedup(query)
  {
    var ids := Dedup(query);
    if ids != [] {
      assert ids[0] in ids;
    }
    NoIndicesResolvedFromStore(ids, store, recordId, metric);
  }

  /** SavedOutput for the part of the run after the identifiers are known. */
  lemma SavedFromStore<T>(proteinIds: seq<string>, store: EmbeddingStore<T>, recordId: string, metric: string)
    requires metric in Metrics && Distinct(proteinIds)
    ensures var outcome := ExtractFromStore(proteinIds, store, recordId, metric);
      outcome.Saved? ==>
        var sideIds := store.proteinIds.value;
        var dataset := store.matrices[DatasetName(metric).value];
        var order := FetchOrder(proteinIds, sideIds);
        && outcome.filename == OutputFilename(recordId, metric)
        && |outcome.matrix| == |order| == |Found(proteinIds, IndexMap(sideIds))|
        && StrictlyIncreasing(order)
        && (forall k :: 0 <= k < |order| ==>
              order[k] < |dataset| && outcome.matrix[k] == dataset[order[k]]
              && order[k] < |sideIds| && sideIds[order[k]] in proteinIds)
        && (forall x :: x in proteinIds && x in sideIds ==> IndexMap(sideIds)[x] in order)
        && (forall x :: x in outcome.skipped <==> x in proteinIds && x !in sideIds)
  {
    if store.proteinIds.Some? {
      FetchOrderProperties(proteinIds, store.proteinIds.value);
      ResolutionAgainstStore(proteinIds, store.proteinIds.value);
    }
  }

  /**
   * A saved matrix has one row per queried identifier the store lists, row k
   * being the dataset row at the k-th strictly ascending index; each such row
   * belongs to a queried identifier, and the warnings name exactly the
   * queried identifiers the store does not list.
   */
  lemma SavedOutput<T>(query: seq<Option<string>>, store: EmbeddingStore<T>, recordId: string, metric: string)
    requires metric in Metrics
    ensures var outcome := ExtractSpec(query, store, recordId, metric);
      outcome.Saved? ==>
        var sideIds := store.proteinIds.value;
        var dataset := store.matrices[DatasetName(metric).value];
        var order := FetchOrder(Dedup(query), sideIds);
        && outcome.filename == recordId + "_" + metric + ".npy"
        && |outcome.matrix| == |order| == |Found(Dedup(query), IndexMap(sideIds))|
        && StrictlyIncreasing(order)
        && (forall k :: 0 <= k < |order| ==>
              order[k] < |dataset| && outcome.matrix[k] == dataset[order[k]]
              && order[k] < |sideIds| && Some(sideIds[order[k]]) in query)
        && (forall x :: Some(x) in query && x in sideIds ==> IndexMap(sideIds)[x] in order)
        && (forall x :: x in outcome.skipped <==> Some(x) in query && x !in sideIds)
  {
    SavedFromStore(Dedup(query), store, recordId, metric);
  }

  /** Every saved row keeps the dataset's column width. */
  lemma SavedRowWidth<T>(query: seq<Option<string>>, store: EmbeddingStore<T>, recordId: string, metric: string, width: nat)
    requires metric in Metrics && DatasetName(metric).value in store.matrices
    requires RowsOfWidth(store.matrices[DatasetName(metric).value], width)
    ensures var outcome := ExtractSpec(query, store, recordId, metric);
      outcome.Saved? ==> RowsOfWidth(outcome.matrix, width)
  {
    var outcome := ExtractSpec(query, store, recordId, metric);
    if outcome.Saved? {
      var dataset := store.matrices[DatasetName(metric).value];
      SelectRowsKeepsWidth(dataset, FetchOrder(Dedup(query), store.proteinIds.value), width);
    }
  }

  /** A dataset with a row for every listed identifier never makes the fetch fail. */
  lemma ConsistentStoreFetches<T>(query: seq<Option<string>>, store: EmbeddingStore<T>, recordId: string, metric: string)
    requires metric in Metrics && store.proteinIds.Some?
    requires DatasetName(metric).value in store.matrices
    requires |store.matrices[DatasetName(metric).value]| >= |store.proteinIds.value|
    ensures !ExtractSpec(query, store, recordId, metric).FetchFailed?
  {
    var ids := Dedup(query);
    if ids != [] {
      FetchOrderProperties(ids, store.proteinIds.value);
    }
  }

  /** Identifier lists with the same elements are fetched in the same order. */
  lemma SameElementsSameFetchOrder(ids1: seq<string>, ids2: seq<string>, sideIds: seq<string>)
    requires Distinct(ids1) && Distinct(ids2)
    requires forall x :: x in ids1 <==> x in ids2
    ensures FetchOrder(ids1, sideIds) == FetchOrder(ids2, sideIds)
    ensures Resolved(ids1, IndexMap(sideIds)) == [] <==> Resolved(ids2, IndexMap(sideIds)) == []
  {
    var m := IndexMap(sideIds);
    var r1, r2 := Resolved(ids1, m), Resolved(ids2, m);
    ResolvedDistinct(ids1, sideIds);
    ResolvedDistinct(ids2, sideIds);
    forall r ensures r in r1 <==> r in r2 {
      ResolvedElements(ids1, m, r);
      ResolvedElements(ids2, m, r);
    }
    DistinctSameElements(r1, r2);
    SortedUnique(SortAscending(r1), SortAscending(r2));
    if r1 != [] { assert r1[0] in r2; }
    if r2 != [] { assert r2[0] in r1; }
  }

  /**
   * Identifier lists with the same elements end the same way: the same
   * outcome kind, the same skipped identifiers (up to order), and on a save
   * the same file name and matrix.
   */
  lemma SameElementsSameMatrix<T>(ids1: seq<string>, ids2: seq<string>, store: EmbeddingStore<T>, recordId: string, metric: string)
    requires metric in Metrics
    requires Distinct(ids1) && Distinct(ids2)
    requires forall x :: x in ids1 <==> x in ids2
    ensures var outcome1, outcome2 := ExtractFromStore(ids1, store, recordId, metric), ExtractFromStore(ids2, store, recordId, metric);
      && (outcome1.MissingProteinIdDataset? <==> outcome2.MissingProteinIdDataset?)
      && (outcome1.MissingEmbeddingDataset? <==> outcome2.MissingEmbeddingDataset?)
      && (outcome1.NoIndicesResolved? <==> outcome2.NoIndicesResolved?)
      && (outcome1.FetchFailed? <==> outcome2.FetchFailed?)
      && (outcome1.Saved? <==> outcome2.Saved?)
      && (outcome1.MissingEmbeddingDataset? ==> outcome1.name == outcome2.name)
      && (outcome1.NoIndicesResolved? || outcome1.FetchFailed? || outcome1.Saved? ==>
            forall x :: x in outcome1.skipped <==> x in outcome2.skipped)
      && (outcome1.Saved? ==> outcome1.filename == outcome2.filename && outcome1.matrix == outcome2.matrix)
  {
    if store.proteinIds.Some? {
      SameElementsSameFetchOrder(ids1, ids2, store.proteinIds.value);
    }
  }

  /**
   * How a run ends depends only on which identifiers the query returned, not
   * on their order, repetition or the nulls among them: the outcome kind, the
   * skipped identifiers (up to order) and the saved file name and matrix
   * agree, since rows come in ascending index order.
   */
  lemma OutputIndependentOfQueryOrder<T>(query1: seq<Option<string>>, query2: seq<Option<string>>,
                                         store: EmbeddingStore<T>, recordId: string, metric: string)
    requires metric in Metrics
    requires forall x :: Some(x) in query1 <==> Some(x) in query2
    ensures var outcome1, outcome2 := ExtractSpec(query1, store, recordId, metric), ExtractSpec(query2, store, recordId, metric);
      && (outcome1.NoProteinIds? <==> outcome2.NoProteinIds?)
      && (outcome1.MissingProteinIdDataset? <==> outcome2.MissingProteinIdDataset?)
      && (outcome1.MissingEmbeddingDataset? <==> outcome2.MissingEmbeddingDataset?)
      && (outcome1.NoIndicesResolved? <==> outcome2.NoIndicesResolved?)
      && (outcome1.FetchFailed? <==> outcome2.FetchFailed?)
      && (outcome1.Saved? <==> outcome2.Saved?)
      && (outcome1.NoIndicesResolved? || outcome1.FetchFailed? || outcome1.Saved? ==>
            forall x :: x in outcome1.skipped <==> x in outcome2.skipped)
      && (outcome1.Saved? ==> outcome1.filename == outcome2.filename && outcome1.matrix == outcome2.matrix)
  {
    var ids1, ids2 := Dedup(query1), Dedup(query2);
    if ids1 != [] { assert ids1[0] in ids2; }
    if ids2 != [] { assert ids2[0] in ids1; }
    SameElementsSameMatrix(ids1, ids2, store, recordId, metric);
  }

  /** A run reads only the dataset its metric names: replacing the other metric's dataset changes nothing. */
  lemma MetricReadsOnlyItsDataset<T>(query: seq<Option<string>>, store: EmbeddingStore<T>, recordId: string,
                                     metric: string, other: string, replacement: seq<seq<T>>)
    requires metric in Metrics && other in Metrics && metric != other
    ensures ExtractSpec(query, store, recordId, metric) ==
      ExtractSpec(query, store.(matrices := store.matrices[DatasetName(other).value := replacement]), recordId, metric)
  {
    DatasetNameInjective(metric, other);
  }

  lemma WorkedExampleDedup(p1: string, p2: string, p3: string)
    requires p1 != p2 && p1 != p3 && p2 != p3
    ensures Dedup([Some(p1), Some(p2), Some(p3)]) == [p1, p2, p3]
  {
    var query := [Some(p1), Some(p2), Some(p3)];
    assert query[..2][..1] == query[..1] == [Some(p1)] && query[..2] == [Some(p1), Some(p2)];
    assert query[..1][..0] == [];
    assert Dedup(query[..1]) == [p1];
    assert Dedup(query[..2]) == [p1, p2];
  }

  lemma WorkedExampleIndexMap(p1: string, p2: string, p3: string, p9: string)
    requires p1 != p2 && p1 != p3 && p2 != p3 && p9 != p1 && p9 != p2 && p9 != p3
    ensures var m := IndexMap([p3, p1, p9]);
      p1 in m && m[p1] == 1 && p3 in m && m[p3] == 0 && p2 !in m
  {
    var side := [p3, p1, p9];
    var m := IndexMap(side);
    assert side[0] == p3 && side[1] == p1 && side[2] == p9 && |side| == 3;
    assert p1 in side && p3 in side && p2 !in side;
    assert m[p1] < 3 && side[m[p1]] == p1;
    assert m[p3] < 3 && side[m[p3]] == p3;
  }

  lemma WorkedExampleResolved(p1: string, p2: string, p3: string, m: map<string, nat>)
    requires p1 in m && m[p1] == 1 && p3 in m && m[p3] == 0 && p2 !in m
    ensures Resolved([p1, p2, p3], m) == [1, 0]
  {
    var ids := [p1, p2, p3];
    assert ids[..2][..1] == ids[..1] == [p1] && ids[..2] == [p1, p2] && ids[..1][..0] == [];
    assert Resolved(ids[..1], m) == [1];
    assert Resolved(ids[..2], m) == [1];
  }

  lemma WorkedExampleSkipped(p1: string, p2: string, p3: string, m: map<string, nat>)
    requires p1 in m && p3 in m && p2 !in m
    ensures Skipped([p1, p2, p3], m) == [p2]
  {
    var ids := [p1, p2, p3];
    assert ids[..2][..1] == ids[..1] == [p1] && ids[..2] == [p1, p2] && ids[..1][..0] == [];
    assert Skipped(ids[..1], m) == [];
    assert Skipped(ids[..2], m) == [p2];
  }

  lemma WorkedExampleSort()
    ensures SortAscending([1, 0]) == [0, 1]
  {
    assert [1, 0][1..] == [0];
    assert SortAscending([0]) == [0];
  }

  lemma WorkedExampleRows<T>(r0: seq<T>, r1: seq<T>, r2: seq<T>)
    ensures AllBelow([0, 1], |[r0, r1, r2]|)
    ensures SelectRows([r0, r1, r2], [0, 1]) == [r0, r1]
  {
  }

  lemma WorkedExampleFilename()
    ensures OutputFilename("R1", "mean") == "R1_mean.npy"
  {
  }

  /**
   * Record "R1" whose query returns P1, P2, P3 against a store listing P3,
   * P1, P9 over rows r0, r1, r2 (any four distinct identifiers): P2 is
   * warned about, P1 resolves to row 1 and P3 to row 0, the indices are
   * sorted to [0, 1], and the matrix saved as "R1_mean.npy" is [r0, r1].
   */
  lemma WorkedExample<T>(p1: string, p2: string, p3: string, p9: string, r0: seq<T>, r1: seq<T>, r2: seq<T>)
    requires p1 != p2 && p1 != p3 && p2 != p3 && p9 != p1 && p9 != p2 && p9 != p3
    ensures ExtractSpec([Some(p1), Some(p2), Some(p3)],
                        EmbeddingStore(Some([p3, p1, p9]), map["mean_embeddings" := [r0, r1, r2]]),
                        "R1", "mean")
         == Saved("R1_mean.npy", [r0, r1], [p2])
  {
    WorkedExampleDedup(p1, p2, p3);
    WorkedExampleIndexMap(p1, p2, p3, p9);
    WorkedExampleResolved(p1, p2, p3, IndexMap([p3, p1, p9]));
    WorkedExampleSkipped(p1, p2, p3, IndexMap([p3, p1, p9]));
    WorkedExampleSort();
    WorkedExampleRows(r0, r1, r2);
    WorkedExampleFilename();
  }

}
