/**
 * The identifier-to-row join of the embedding extractor (Data/combine.py).
 *
 * A run takes the protein identifiers that the relational store returned for
 * one record, keeps each non-null identifier once, looks every identifier up
 * in a map built from the embedding store's identifier list, sorts the row
 * indices it found, and fetches those rows of the embedding matrix chosen by
 * the metric.  The stores themselves are values here: the query result is a
 * sequence of nullable strings and the embedding store is a record holding
 * the optional identifier list and the named matrices.
 */
module Combine {
  import opened Wrappers
  import opened Sequences
  import opened Sorting

  // ---------------------------------------------------------------------------
  // Deduplicating the query result: dropna().unique() (line 68)
  // ---------------------------------------------------------------------------

  /** Position of the first occurrence of x in q. */
  ghost function FirstIndex<T>(q: seq<T>, x: T): (i: nat)
    requires x in q
    ensures i < |q| && q[i] == x
    ensures forall j :: 0 <= j < i ==> q[j] != x
  {
    if q[0] == x then 0 else 1 + FirstIndex(q[1..], x)
  }

  /**
   * The non-null identifiers of the query result, each kept once, in the
   * order of their first occurrence (pandas' unique() keeps appearance order).
   */
  function Dedup(query: seq<Option<string>>): (ids: seq<string>)
    ensures Distinct(ids)
    ensures forall x :: x in ids <==> Some(x) in query
  {
    if query == [] then []
    else
      var n := |query| - 1;
      var earlier := Dedup(query[..n]);
      assert forall x :: Some(x) in query <==> Some(x) in query[..n] || query[n] == Some(x) by {
        assert query == query[..n] + [query[n]];
      }
      match query[n]
      case None => earlier
      case Some(id) => if id in earlier then earlier else earlier + [id]
  }

  lemma FirstIndexInPrefix<T>(q: seq<T>, n: nat, x: T)
    requires n <= |q| && x in q[..n]
    ensures FirstIndex(q, x) == FirstIndex(q[..n], x)
  {
    var i, k := FirstIndex(q, x), FirstIndex(q[..n], x);
    assert q[..n][k] == q[k];
    assert i <= k;
    assert q[..n][i] == q[i];
  }

  /** Identifiers stay in the order in which the query result first mentions them. */
  lemma {:induction false} DedupKeepsFirstOccurrenceOrder(query: seq<Option<string>>, i: nat, j: nat)
    requires i < j < |Dedup(query)|
    ensures FirstIndex(query, Some(Dedup(query)[i])) < FirstIndex(query, Some(Dedup(query)[j]))
  {
    var n := |query| - 1;
    var earlier := Dedup(query[..n]);
    var ids := Dedup(query);
    if ids == earlier {
      DedupKeepsFirstOccurrenceOrder(query[..n], i, j);
      FirstIndexInPrefix(query, n, Some(ids[i]));
      FirstIndexInPrefix(query, n, Some(ids[j]));
    } else {
      assert ids == earlier + [query[n].value];
      var x := ids[j];
      if j < |earlier| {
        DedupKeepsFirstOccurrenceOrder(query[..n], i, j);
        FirstIndexInPrefix(query, n, Some(ids[i]));
        FirstIndexInPrefix(query, n, Some(ids[j]));
      } else {
        assert Some(x) !in query[..n];
        FirstIndexInPrefix(query, n, Some(ids[i]));
        assert FirstIndex(query, Some(x)) == n;
      }
    }
  }

  // ---------------------------------------------------------------------------
  // The identifier-to-row map: create_protein_index_map (line 32)
  // ---------------------------------------------------------------------------

  /**
   * {pid: i for i, pid in enumerate(ids)}: the comprehension inserts the
   * entries in list order, so for an identifier listed twice the later
   * position overwrites the earlier one.
   */
  function IndexMap(ids: seq<string>): (m: map<string, nat>)
    ensures forall k :: k in m <==> k in ids
    ensures forall k :: k in m ==> m[k] < |ids| && ids[m[k]] == k
    ensures forall k, j :: k in m && m[k] < j < |ids| ==> ids[j] != k
    ensures |m| <= |ids|
  {
    if ids == [] then map[]
    else
      var n := |ids| - 1;
      assert ids == ids[..n] + [ids[n]];
      IndexMap(ids[..n])[ids[n] := n]
  }

  /** Distinct identifiers map to distinct rows. */
  lemma IndexMapInjective(ids: seq<string>, k1: string, k2: string)
    requires k1 in IndexMap(ids) && k2 in IndexMap(ids) && k1 != k2
    ensures IndexMap(ids)[k1] != IndexMap(ids)[k2]
  {
  }

  // ---------------------------------------------------------------------------
  // Resolving identifiers to row indices (lines 120-126)
  // ---------------------------------------------------------------------------

  /** The identifiers of proteinIds that are keys of the map, in order. */
  function Found(proteinIds: seq<string>, indexMap: map<string, nat>): (found: seq<string>)
    ensures forall x :: x in found <==> x in proteinIds && x in indexMap
    ensures Distinct(proteinIds) ==> Distinct(found)
  {
    if proteinIds == [] then []
    else
      var n := |proteinIds| - 1;
      assert proteinIds == proteinIds[..n] + [proteinIds[n]];
      assert Distinct(proteinIds) ==> Distinct(proteinIds[..n]) && proteinIds[n] !in proteinIds[..n];
      Found(proteinIds[..n], indexMap) + (if proteinIds[n] in indexMap then [proteinIds[n]] else [])
  }

  /** The identifiers the loop warns about, in order: those that are not keys of the map. */
  function Skipped(proteinIds: seq<string>, indexMap: map<string, nat>): (skipped: seq<string>)
    ensures forall x :: x in skipped <==> x in proteinIds && x !in indexMap
  {
    if proteinIds == [] then []
    else
      var n := |proteinIds| - 1;
      assert proteinIds == proteinIds[..n] + [proteinIds[n]];
      Skipped(proteinIds[..n], indexMap) + (if proteinIds[n] in indexMap then [] else [proteinIds[n]])
  }

  /** The row indices the loop collects, in order. */
  function Resolved(proteinIds: seq<string>, indexMap: map<string, nat>): (indices: seq<nat>)
    ensures forall r :: r in indices ==> r in indexMap.Values
  {
    if proteinIds == [] then []
    else
      var n := |proteinIds| - 1;
      Resolved(proteinIds[..n], indexMap) + (if proteinIds[n] in indexMap then [indexMap[proteinIds[n]]] else [])
  }

  /**
   * Found and skipped identifiers split the identifiers between them, and
   * the resolved indices are the map's values of the found identifiers.
   */
  lemma {:induction false} ResolvedMatchesFound(proteinIds: seq<string>, indexMap: map<string, nat>)
    ensures |Found(proteinIds, indexMap)| + |Skipped(proteinIds, indexMap)| == |proteinIds|
    ensures |Resolved(proteinIds, indexMap)| == |Found(proteinIds, indexMap)|
    ensures forall k :: 0 <= k < |Resolved(proteinIds, indexMap)| ==>
      Resolved(proteinIds, indexMap)[k] == indexMap[Found(proteinIds, indexMap)[k]]
    ensures Found(proteinIds, indexMap) == [] ==> Skipped(proteinIds, indexMap) == proteinIds
  {
    if proteinIds != [] {
      var n := |proteinIds| - 1;
      assert proteinIds == proteinIds[..n] + [proteinIds[n]];
      ResolvedMatchesFound(proteinIds[..n], indexMap);
      var found := Found(proteinIds, indexMap);
      forall k | 0 <= k < |Resolved(proteinIds, indexMap)|
        ensures Resolved(proteinIds, indexMap)[k] == indexMap[found[k]]
      {
        assert found[k] in found;
      }
    }
  }

  /** Extending the identifiers by one extends the resolved and skipped lists by at most one. */
  lemma ResolutionStep(proteinIds: seq<string>, indexMap: map<string, nat>, i: nat)
    requires i < |proteinIds|
    ensures Resolved(proteinIds[..i + 1], indexMap) ==
      Resolved(proteinIds[..i], indexMap) + (if proteinIds[i] in indexMap then [indexMap[proteinIds[i]]] else [])
    ensures Skipped(proteinIds[..i + 1], indexMap) ==
      Skipped(proteinIds[..i], indexMap) + (if proteinIds[i] in indexMap then [] else [proteinIds[i]])
  {
    var prefix := proteinIds[..i + 1];
    assert prefix[..i] == proteinIds[..i] && prefix[i] == proteinIds[i];
  }

  /**
   * The resolution loop: appends the row of every identifier found in the
   * map and records (in the source: warns about) every identifier that is not.
   */
  method ResolveIndices(proteinIds: seq<string>, indexMap: map<string, nat>)
    returns (indices: seq<nat>, skipped: seq<string>)
    ensures indices == Resolved(proteinIds, indexMap)
    ensures skipped == Skipped(proteinIds, indexMap)
  {
    indices, skipped := [], [];
    for i := 0 to |proteinIds|
      invariant indices == Resolved(proteinIds[..i], indexMap)
      invariant skipped == Skipped(proteinIds[..i], indexMap)
    {
      var proteinId := proteinIds[i];
      ResolutionStep(proteinIds, indexMap, i);
      if proteinId in indexMap {
        indices := indices + [indexMap[proteinId]];
      } else {
        skipped := skipped + [proteinId];
      }
    }
    assert proteinIds[..|proteinIds|] == proteinIds;
  }

  /** Nothing is resolved exactly when no identifier is a key; then every identifier is skipped. */
  lemma NothingResolved(proteinIds: seq<string>, indexMap: map<string, nat>)
    ensures Resolved(proteinIds, indexMap) == [] <==> forall x :: x in proteinIds ==> x !in indexMap
    ensures Resolved(proteinIds, indexMap) == [] ==> Skipped(proteinIds, indexMap) == proteinIds
  {
    ResolvedMatchesFound(proteinIds, indexMap);
    var found := Found(proteinIds, indexMap);
    if found != [] {
      assert found[0] in found;
    }
  }

  /**
   * Against a map built from the store's identifier list, every resolved
   * index is a row of that list holding the identifier it was resolved from,
   * and the skipped identifiers are exactly those the list does not hold.
   */
  lemma ResolutionAgainstStore(proteinIds: seq<string>, sideIds: seq<string>)
    ensures |Resolved(proteinIds, IndexMap(sideIds))| == |Found(proteinIds, IndexMap(sideIds))|
    ensures var m := IndexMap(sideIds);
      forall k :: 0 <= k < |Resolved(proteinIds, m)| ==>
        Resolved(proteinIds, m)[k] < |sideIds| && sideIds[Resolved(proteinIds, m)[k]] == Found(proteinIds, m)[k]
    ensures forall x :: x in Skipped(proteinIds, IndexMap(sideIds)) <==> x in proteinIds && x !in sideIds
    ensures |Resolved(proteinIds, IndexMap(sideIds))| + |Skipped(proteinIds, IndexMap(sideIds))| == |proteinIds|
  {
    var m := IndexMap(sideIds);
    ResolvedMatchesFound(proteinIds, m);
    forall k | 0 <= k < |Resolved(proteinIds, m)|
      ensures Resolved(proteinIds, m)[k] < |sideIds| && sideIds[Resolved(proteinIds, m)[k]] == Found(proteinIds, m)[k]
    {
      assert Found(proteinIds, m)[k] in Found(proteinIds, m);
    }
  }

  /** Identifiers without repeats resolve to row indices without repeats. */
  lemma ResolvedDistinct(proteinIds: seq<string>, sideIds: seq<string>)
    requires Distinct(proteinIds)
    ensures Distinct(Resolved(proteinIds, IndexMap(sideIds)))
  {
    var m := IndexMap(sideIds);
    var found, indices := Found(proteinIds, m), Resolved(proteinIds, m);
    ResolvedMatchesFound(proteinIds, m);
    forall i, j | 0 <= i < j < |indices| ensures indices[i] != indices[j] {
      assert found[i] in found && found[j] in found;
      assert found[i] != found[j];
    }
  }

  /** An index is resolved exactly when some found identifier maps to it. */
  lemma ResolvedElements(proteinIds: seq<string>, indexMap: map<string, nat>, r: nat)
    ensures r in Resolved(proteinIds, indexMap) <==>
      exists x :: x in proteinIds && x in indexMap && indexMap[x] == r
  {
    var found, indices := Found(proteinIds, indexMap), Resolved(proteinIds, indexMap);
    ResolvedMatchesFound(proteinIds, indexMap);
    if r in indices {
      var k :| 0 <= k < |indices| && indices[k] == r;
      assert found[k] in found;
    }
    if x :| x in proteinIds && x in indexMap && indexMap[x] == r {
      assert x in found;
      var k :| 0 <= k < |found| && found[k] == x;
      assert indices[k] == r;
    }
  }

  // ---------------------------------------------------------------------------
  // Sorting and fetching (lines 133-137)
  // ---------------------------------------------------------------------------

  /** The row indices in the order they are fetched: resolved, then sorted ascending. */
  function FetchOrder(proteinIds: seq<string>, sideIds: seq<string>): seq<nat>
  {
    SortAscending(Resolved(proteinIds, IndexMap(sideIds)))
  }

  /**
   * The fetch order holds each found identifier's row exactly once, every
   * index names a row of the identifier list whose identifier was asked for,
   * and the indices strictly ascend, whatever order the identifiers came in.
   */
  lemma FetchOrderProperties(proteinIds: seq<string>, sideIds: seq<string>)
    requires Distinct(proteinIds)
    ensures var order := FetchOrder(proteinIds, sideIds);
      && StrictlyIncreasing(order)
      && |order| == |Found(proteinIds, IndexMap(sideIds))|
      && (forall k :: 0 <= k < |order| ==> order[k] < |sideIds| && sideIds[order[k]] in proteinIds)
      && (forall x :: x in proteinIds && x in sideIds ==> IndexMap(sideIds)[x] in order)
  {
    ResolvedDistinct(proteinIds, sideIds);
    SortDistinctIsStrict(Resolved(proteinIds, IndexMap(sideIds)));
    FetchOrderRows(proteinIds, sideIds);
    FetchOrderCovers(proteinIds, sideIds);
  }

  /** Each fetched index is a row of the identifier list holding a requested identifier. */
  lemma FetchOrderRows(proteinIds: seq<string>, sideIds: seq<string>)
    ensures var order := FetchOrder(proteinIds, sideIds);
      && |order| == |Found(proteinIds, IndexMap(sideIds))|
      && (forall k :: 0 <= k < |order| ==> order[k] < |sideIds| && sideIds[order[k]] in proteinIds)
  {
    var m := IndexMap(sideIds);
    var indices := Resolved(proteinIds, m);
    var order := FetchOrder(proteinIds, sideIds);
    ResolutionAgainstStore(proteinIds, sideIds);
    assert |order| == |multiset(order)| == |multiset(indices)| == |indices|;
    forall k | 0 <= k < |order| ensures order[k] < |sideIds| && sideIds[order[k]] in proteinIds {
      assert order[k] in multiset(indices);
      var p :| 0 <= p < |indices| && indices[p] == order[k];
      assert Found(proteinIds, m)[p] in Found(proteinIds, m);
    }
  }

  /** The row of every requested identifier that the list holds is fetched. */
  lemma FetchOrderCovers(proteinIds: seq<string>, sideIds: seq<string>)
    ensures forall x :: x in proteinIds && x in sideIds ==> IndexMap(sideIds)[x] in FetchOrder(proteinIds, sideIds)
  {
    var m := IndexMap(sideIds);
    var indices := Resolved(proteinIds, m);
    forall x | x in proteinIds && x in sideIds ensures m[x] in FetchOrder(proteinIds, sideIds) {
      ResolvedElements(proteinIds, m, m[x]);
      assert m[x] in multiset(indices);
    }
  }

  /** Every index is below n. */
  predicate AllBelow(indices: seq<nat>, n: nat)
  {
    forall k :: 0 <= k < |indices| ==> indices[k] < n
  }

  /** Every row has `width` columns. */
  ghost predicate RowsOfWidth<T>(rows: seq<seq<T>>, width: nat)
  {
    forall k :: 0 <= k < |rows| ==> |rows[k]| == width
  }

  /** Fancy indexing dataset[indices, :]: row k of the result is row indices[k] of the dataset. */
  function SelectRows<T>(dataset: seq<seq<T>>, indices: seq<nat>): (rows: seq<seq<T>>)
    requires AllBelow(indices, |dataset|)
    ensures |rows| == |indices|
    ensures forall k :: 0 <= k < |rows| ==> rows[k] == dataset[indices[k]]
  {
    seq(|indices|, k requires 0 <= k < |indices| => dataset[indices[k]])
  }

  /** Selecting rows keeps the dataset's column width. */
  lemma SelectRowsKeepsWidth<T>(dataset: seq<seq<T>>, indices: seq<nat>, width: nat)
    requires AllBelow(indices, |dataset|)
    requires RowsOfWidth(dataset, width)
    ensures RowsOfWidth(SelectRows(dataset, indices), width)
  {
  }

  // ---------------------------------------------------------------------------
  // Metric and output name (lines 41, 101-105, 140)
  // ---------------------------------------------------------------------------

  /** The metric values the argument parser accepts (line 41). */
  const Metrics: set<string> := {"mean", "mean_mid"}

  /** The embedding dataset read for a metric; None for a value outside the parser's choices. */
  function DatasetName(metric: string): (name: Option<string>)
    ensures name.Some? <==> metric in Metrics
  {
    if metric == "mean" then Some("mean_embeddings")
    else if metric == "mean_mid" then Some("mean_mid_embeddings")
    else None
  }

  /** Each parser choice reads the dataset named after it. */
  lemma DatasetNameOfMetrics()
    ensures DatasetName("mean") == Some("mean_embeddings")
    ensures DatasetName("mean_mid") == Some("mean_mid_embeddings")
  {
  }

  /** The two metrics read two different datasets. */
  lemma DatasetNameInjective(metric1: string, metric2: string)
    requires metric1 in Metrics && metric2 in Metrics && metric1 != metric2
    ensures DatasetName(metric1).value != DatasetName(metric2).value
  {
  }

  /** `{record_id}_{metric}.npy` */
  function OutputFilename(recordId: string, metric: string): (filename: string)
    ensures |filename| == |recordId| + |metric| + 5
    ensures filename[..|recordId|] == recordId
    ensures filename[|recordId|] == '_'
    ensures filename[|recordId| + 1..|filename| - 4] == metric
    ensures filename[|filename| - 4..] == ".npy"
  {
    recordId + "_" + metric + ".npy"
  }

  /** For the parser's metrics, the output file name determines the record and the metric. */
  lemma {:induction false} OutputFilenameInjective(recordId1: string, metric1: string, recordId2: string, metric2: string)
    requires metric1 in Metrics && metric2 in Metrics
    requires OutputFilename(recordId1, metric1) == OutputFilename(recordId2, metric2)
    ensures recordId1 == recordId2 && metric1 == metric2
  {
    var f := OutputFilename(recordId1, metric1);
    var n := |f|;
    assert f == recordId1 + "_" + metric1 + ".npy" == recordId2 + "_" + metric2 + ".npy";
    // The last letter before ".npy" tells the two metrics apart.
    assert f[n - 5] == metric1[|metric1| - 1] && f[n - 5] == metric2[|metric2| - 1];
    assert metric1 == metric2;
    var k := |recordId1|;
    assert |recordId2| == k;
    assert recordId1 == f[..k] == recordId2;
  }

  // ---------------------------------------------------------------------------
  // The whole run (lines 68-141)
  // ---------------------------------------------------------------------------

  /**
   * The embedding store as the run sees it: the 'protein_ids' dataset (None
   * when the file has none) and the numeric datasets by name.
   */
  datatype EmbeddingStore<T> = EmbeddingStore(proteinIds: Option<seq<string>>, matrices: map<string, seq<seq<T>>>)

  /** How a run ends. */
  datatype Outcome<T> =
    | NoProteinIds                                  // lines 82-84: nothing to look up
    | MissingProteinIdDataset                       // lines 29-31: exit status 1
    | MissingEmbeddingDataset(name: string)         // lines 112-115: no output
    | NoIndicesResolved(skipped: seq<string>)       // lines 127-129: no output
    | FetchFailed(skipped: seq<string>)             // line 146: the fetch raised
    | Saved(filename: string, matrix: seq<seq<T>>, skipped: seq<string>)  // lines 136-141

  /** What a run produces from the query result and the store. */
  function ExtractSpec<T>(query: seq<Option<string>>, store: EmbeddingStore<T>, recordId: string, metric: string): Outcome<T>
    requires metric in Metrics
  {
    var proteinIds := Dedup(query);
    if proteinIds == [] then NoProteinIds
    else ExtractFromStore(proteinIds, store, recordId, metric)
  }

  /** The part of a run after the identifiers are known: lines 91-141. */
  function ExtractFromStore<T>(proteinIds: seq<string>, store: EmbeddingStore<T>, recordId: string, metric: string): Outcome<T>
    requires metric in Metrics
  {
    if store.proteinIds.None? then MissingProteinIdDataset
    else
      var sideIds := store.proteinIds.value;
      var indexMap := IndexMap(sideIds);
      var name := DatasetName(metric).value;
      if name !in store.matrices then MissingEmbeddingDataset(name)
      else
        var skipped := Skipped(proteinIds, indexMap);
        if Resolved(proteinIds, indexMap) == [] then NoIndicesResolved(skipped)
        else
          var order := FetchOrder(proteinIds, sideIds);
          var dataset := store.matrices[name];
          if !AllBelow(order, |dataset|) then FetchFailed(skipped)
          else Saved(OutputFilename(recordId, metric), SelectRows(dataset, order), skipped)
  }

  /**
   * The run itself: the resolution loop, then the in-place sort of the
   * collected indices, then the fetch.
   */
  method Extract<T>(query: seq<Option<string>>, store: EmbeddingStore<T>, recordId: string, metric: string)
    returns (outcome: Outcome<T>)
    requires metric in Metrics
    ensures outcome == ExtractSpec(query, store, recordId, metric)
  {
    var proteinIds := Dedup(query);
    if proteinIds == [] {
      return NoProteinIds;
    }
    if store.proteinIds.None? {
      return MissingProteinIdDataset;
    }
    var sideIds := store.proteinIds.value;
    var indexMap := IndexMap(sideIds);
    var name := DatasetName(metric).value;
    if name !in store.matrices {
      return MissingEmbeddingDataset(name);
    }
    var indices, skipped := ResolveIndices(proteinIds, indexMap);
    if indices == [] {
      return NoIndicesResolved(skipped);
    }
    var toFetch := new nat[|indices|](k requires 0 <= k < |indices| => indices[k]);
    assert toFetch[..] == indices;
    SortInPlace(toFetch);
    var order := toFetch[..];
    var dataset := store.matrices[name];
    if !AllBelow(order, |dataset|) {
      return FetchFailed(skipped);
    }
    outcome := Saved(OutputFilename(recordId, metric), SelectRows(dataset, order), skipped);
  }

}
