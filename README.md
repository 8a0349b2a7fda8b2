# Identifier-to-row join of the embedding extractor

`Data/combine.py` extracts per-protein embedding rows for one genomic record.
Given a record identifier and a metric (`mean` or `mean_mid`), it first asks
the relational store for the record's protein identifiers. It then opens the
embedding store, maps each identifier to a row position through the store's
`protein_ids` list, and sorts the positions it resolved. Finally it fetches
those rows of the metric's matrix and saves them as `<record>_<metric>.npy`.

This project models the join that sits between the two stores. The steps are:

- deduplicating the query result;
- building the identifier-to-row map;
- the resolution loop, with its skipped identifiers;
- the in-place ascending sort of the collected indices;
- row selection;
- the metric-to-dataset mapping and the output file name;
- every way a run can end.

The two stores are values:

- The query result is a sequence of nullable strings, `seq<Option<string>>`.
- The embedding store is an `EmbeddingStore<T>`. It holds the optional identifier list and the numeric matrices by name, each matrix a `seq<seq<T>>` with an opaque element type.

How a run ends is an `Outcome<T>`. Its cases are:

| case | meaning |
|---|---|
| `NoProteinIds` | no identifiers to look up |
| `MissingProteinIdDataset` | the exit with status 1 |
| `MissingEmbeddingDataset` | the metric's matrix is missing |
| `NoIndicesResolved` | none of the identifiers resolved to a row |
| `FetchFailed` | the fetch raised and the catch-all handler reported it |
| `Saved` | the file name and matrix that would be written, plus the identifiers that produced a warning |

Modules:

- `Wrappers`: the `Option` type.
- `Sequences`: `Distinct` and lemmas about it and multisets.
- `Sorting`: `list.sort()` as a reference function `SortAscending`, an in-place insertion sort `SortInPlace` proved equal to it, and uniqueness of ascending permutations.
- `Combine`: the join's steps, the function `ExtractSpec` describing a whole run, and the method `Extract` that runs the imperative steps:
  - the resolution loop in `ResolveIndices`;
  - the in-place sort, on an array.
- `Combine` also holds the reference definitions that the end-to-end lemmas speak about:
  - `ExtractSpec`, a whole run (lines 68-141);
  - `ExtractFromStore`, the part after the identifiers are known (lines 91-141);
  - `FetchOrder`, the resolved indices sorted ascending (lines 120-133).

  These only compute, so their properties are stated by the `Extract` method and the lemmas in the table below.
- `ExtractProperties`: end-to-end properties of a run, including the worked example of record `R1`.

The model follows the code, including in these places where its behaviour is easy to misread:

- **Empty identifiers are kept.** `dropna()` removes only nulls, so an empty identifier string is kept (`Combine.Dedup`). It is not discarded.
- **A missing identifier list is fatal.** When the store has no `protein_ids` dataset, `sys.exit(1)` ends the process (lines 29-31). This is not a non-fatal early return. `SystemExit` is not an `Exception`, so the catch-all at line 146 does not catch it.
- **Duplicate identifiers: the last one wins.** An identifier listed twice in the store maps to its last position (line 32). `Combine.IndexMap` states this.

## Model

| member | source | states |
|---|---|---|
| Combine.Dedup | Data/combine.py:68 | the deduplicated list has no repeats and holds exactly the identifiers x with Some(x) in the query result (no nulls, nothing invented, nothing lost) |
| Combine.DedupKeepsFirstOccurrenceOrder | Data/combine.py:68 | identifiers appear in the order of their first occurrence in the query result |
| Combine.IndexMap | Data/combine.py:32 | the map's keys are exactly the listed identifiers; each key maps to a position holding that identifier; no later position holds it (last occurrence wins); the map has at most as many entries as the list |
| Combine.IndexMapInjective | Data/combine.py:32 | distinct identifiers map to distinct rows |
| Combine.Found | Data/combine.py:120-126 | the identifiers the loop resolves are exactly the requested identifiers that are map keys, without repeats when the requested list has none |
| Combine.Skipped | Data/combine.py:120-126 | the identifiers the loop warns about are exactly the requested identifiers that are not map keys |
| Combine.Resolved | Data/combine.py:120-126 | every collected index is a value of the map |
| Combine.ResolvedMatchesFound | Data/combine.py:120-126 | resolved and skipped identifiers together are as many as the requested ones; the k-th collected index is the map's value of the k-th resolved identifier; with nothing resolved every identifier is skipped |
| Combine.ResolveIndices | Data/combine.py:120-126 | the loop returns the collected indices and the skipped identifiers, in loop order |
| Combine.NothingResolved | Data/combine.py:120-129 | no index is collected exactly when no requested identifier is a map key, and then every identifier is skipped |
| Combine.ResolutionAgainstStore | Data/combine.py:120-126 | against the store's list, every collected index is below the list's length and names the row that holds its identifier; the skipped identifiers are exactly those the list lacks; collected plus skipped equals requested |
| Combine.ResolvedDistinct | Data/combine.py:120-126 | deduplicated identifiers resolve to pairwise distinct indices |
| Combine.ResolvedElements | Data/combine.py:120-126 | an index is collected exactly when some requested identifier maps to it |
| Combine.FetchOrderProperties | Data/combine.py:120-133 | the sorted indices strictly ascend, are as many as the resolved identifiers, each names a row of the list holding a requested identifier, and include the row of every requested identifier the list holds |
| Sorting.SortAscending | Data/combine.py:133 | the reference sort is ascending and a permutation of its input |
| Sorting.SortedUnique | Data/combine.py:133 | two ascending permutations of each other are equal, so the sorted order is determined by the elements alone |
| Sorting.SortDistinctIsStrict | Data/combine.py:133 | sorting indices without repeats gives a strictly ascending sequence |
| Sorting.SortInPlace | Data/combine.py:133 | the in-place sort leaves the array holding the reference sort of its old contents |
| Combine.SelectRows | Data/combine.py:136 | the selection has one row per index, and row k is the dataset's row indices[k] |
| Combine.SelectRowsKeepsWidth | Data/combine.py:136-137 | selected rows keep the dataset's column width |
| Combine.DatasetName | Data/combine.py:101-105 | a dataset name exists exactly for the parser's two metric choices |
| Combine.DatasetNameOfMetrics | Data/combine.py:101-105 | `mean` reads `mean_embeddings` and `mean_mid` reads `mean_mid_embeddings` |
| Combine.DatasetNameInjective | Data/combine.py:101-105 | the two metrics read different datasets |
| Combine.OutputFilename | Data/combine.py:140 | the name is the record identifier, then `_`, then the metric, then `.npy`, and is five characters longer than record and metric together |
| Combine.OutputFilenameInjective | Data/combine.py:140 | for the parser's metrics, the file name determines both the record and the metric |
| Combine.Extract | Data/combine.py:68-141 | the run (resolution loop, then in-place sort of an array, then fetch) ends with exactly the outcome `ExtractSpec` gives |
| ExtractProperties.NoProteinIdsExit | Data/combine.py:82-84 | the run stops before reading the embedding store exactly when the query result holds no identifier |
| ExtractProperties.NoIndicesResolvedExit | Data/combine.py:127-129 | the run stops without output after the lookup exactly when identifiers exist, both datasets exist and no identifier is listed; all identifiers are then skipped |
| ExtractProperties.SavedOutput | Data/combine.py:133-141 | a saved run is named `record_metric.npy`; its matrix has one row per resolved identifier; row k is the dataset row at the k-th strictly ascending index, whose identifier was requested; every listed requested identifier's row is saved; the skipped identifiers are the requested ones the list lacks |
| ExtractProperties.SavedRowWidth | Data/combine.py:136-137 | if every dataset row has a given width, so does every saved row |
| ExtractProperties.ConsistentStoreFetches | Data/combine.py:136 | a dataset with at least as many rows as the identifier list never makes the fetch fail |
| ExtractProperties.SameElementsSameFetchOrder | Data/combine.py:133 | identifier lists with the same elements are fetched in the same order |
| ExtractProperties.SameElementsSameMatrix | Data/combine.py:91-141 | repeat-free identifier lists with the same elements end in the same outcome kind, skip the same identifiers (up to order), and save the same file name and matrix |
| ExtractProperties.OutputIndependentOfQueryOrder | Data/combine.py:68-136 | query results with the same identifiers, in any order and with any repeats or nulls, end in the same outcome kind (each of the six kinds), skip the same identifiers (up to order), and save the same file name and matrix: the output row order is index order, not query order |
| ExtractProperties.MetricReadsOnlyItsDataset | Data/combine.py:101-109 | a run reads only its metric's dataset: replacing the other metric's dataset leaves the outcome unchanged |
| ExtractProperties.WorkedExample | Data/combine.py:68-141 | record R1 with identifiers P1, P2, P3 against the list P3, P1, P9 and rows r0, r1, r2 saves `R1_mean.npy` holding rows r0 then r1, with P2 skipped |

## Left out

- The relational store (lines 49-79): the connection, the interpolated query text and `read_sql` are external I/O. Its result is the `query` parameter, and query errors with their exit status 1 are not modelled.
- Opening the embedding store (line 91) and its `FileNotFoundError` handler (lines 144-145) are file-system behaviour. The store is given as a value.
- Closing the connection and the store handle on every path is resource handling. Values have no handle to close.
- UTF-8 decoding of the stored identifiers (line 32) is library behaviour. Identifiers are already-decoded strings.
- `np.save` and the `.npy` file format (line 141) are a serialisation library. `Saved` carries the file name and the matrix that would be written.
- Argument parsing (lines 39-42). Its only effect on the join is that the metric is one of its choices, which `ExtractSpec` and `Extract` require (`metric in Metrics`).
- All `print` diagnostics are output only. The per-identifier warnings are the `skipped` list carried by the outcomes.
- The catch-all handler (lines 146-147) is modelled only for a fetch index beyond the matrix's rows (`FetchFailed`). Other library exceptions are not modelled.
- The numeric values of the embeddings are opaque. The element type `T` is generic.
- `EMBEDDING_DIM = 164` (line 22) is never checked by the code, so nothing asserts it. `SavedRowWidth` states the column width relative to the dataset's own width.
- Combine.SelectRows: h5py's demand that fancy indices increase is not a precondition. Instead `FetchOrderProperties` proves that the indices it is given strictly increase.
