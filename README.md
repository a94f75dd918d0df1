# Semantic search over paper abstracts: a Dafny model of its discrete core

The system loads a corpus of scientific papers, embeds every abstract as a vector,
groups the papers into clusters, summarises each cluster by keywords, and recommends
to every co-author up to five other authors whose mean embedding is nearest to theirs. The
numerical work is done by libraries: the sentence encoder, k-means, the keyword
extractor and the plotting code. This project models the routines around those
libraries and proves what they promise.

- `results.dfy` (`Results`): `Result<T, E>`, the outcome of a step that can raise.
- `sequences.dfy` (`Sequences`): counting, de-duplication in first-appearance order
  (the key order of a Python dict), first indices.
- `papers.dfy` (`Papers`, src/utils.py): the record loop of `load_papers` and
  `generate_embeddings`. The loop is the method `LoadPapers`, specified by the function
  `Normalize`. A JSON key that is absent, present as `null`, or present with a value is
  the datatype `Field`.
- `vectors.dfy` (`Vectors`): the element-wise mean and the squared Euclidean distance,
  over `real`.
- `ranking.dfy` (`Ranking`): the ranking step of `suggest_authors`. It stable-sorts the
  positions of one distance-matrix row (an insertion sort, `StableOrder`), removes the
  author by name, and keeps the first five.
- `authors.dfy` (`Authors`, src/analysis.py): `suggest_authors`. Its nested loop is the
  methods `AccumulateEmbeddings` and `AddListings`, specified by `Mentions`,
  `AuthorNames` and `Contributions`. Then come centroids, the distance matrix, and the
  loop `RecommendAll` that fills the recommendation dictionary.
- `clusters.dfy` (`Clusters`, src/analysis.py): `create_word_clouds` and
  `extract_keywords_per_cluster`. Each is a loop over the cluster ids 0 .. max label,
  built on the pure text join (`ClusterText`) and the keyword projection (`Phrases`).

The encoder (`encode: string -> Vector`) and the keyword extractor (`Extractor`) are
function parameters. Cluster labels are an input sequence of naturals.

## Model

| member | source | states |
|---|---|---|
| `Papers.CoAuthorNames` | src/utils.py:37 | one name per `referenceAuthors` entry, in list order, each being `firstname + " " + lastname` |
| `Papers.ToPaper` | src/utils.py:34-38 | a kept record with no `abstractText` key gets abstract `""`; a record with no `referenceAuthors` key gets no co-authors; otherwise the record's abstract and its authors' names |
| `Papers.KeptIndices` | src/utils.py:33-36 | the positions of exactly the records whose abstract is not null, in increasing order |
| `Papers.LoadPapers` | src/utils.py:32-38 | the loop with its `continue` computes `Normalize(data)`, the table or the error |
| `Papers.LoadFailure` | src/utils.py:34-37 | loading fails exactly when a record with a non-null abstract has `referenceAuthors: null`; the error names the first such record |
| `Papers.LoadedPapers` | src/utils.py:32-38 | on success there is one paper per kept record, in input order: paper j comes from the j-th record whose abstract is not null |
| `Papers.EncodeAll` | src/utils.py:45 | one embedding per paper, in table order; row i is `encode` of abstract i |
| `Papers.GenerateEmbeddings` | src/utils.py:42-50 | fails exactly on an empty table or on embeddings of unequal lengths; otherwise matrix row i is `encode(abstract_i)`, paper i gets that embedding, and all rows have one dimension |
| `Vectors.MeanOfCopies` | src/analysis.py:35 | the element-wise mean of k ≥ 1 copies of a vector is that vector |
| `Vectors.Mean` | src/analysis.py:35 | `np.mean(..., axis=0)`: one component per dimension, each of which times the number of vectors is that component's sum |
| `Vectors.SqDist` | src/analysis.py:37 | a squared Euclidean distance is never negative |
| `Ranking.StableOrder` | src/analysis.py:41-42 | the sorted row positions are a permutation of 0 .. n-1, ordered by distance, and equal distances stay in ascending position (a stable sort) |
| `Ranking.StableOrderUnderTransform` | src/analysis.py:37-42 | a strictly increasing transform of the distances, such as the square root, leaves the stable order unchanged |
| `Ranking.ExcludeNamed` | src/analysis.py:44 | keeps exactly the candidates whose name differs from the author's, drawn from the sorted order |
| `Ranking.ExcludeNamedLength` | src/analysis.py:44 | when the name occurs once in the author list, removing by name removes exactly one candidate |
| `Ranking.Peers` | src/analysis.py:41-44 | the row positions whose name is not the author's, each of them, in stable distance order |
| `Ranking.PeersSpec` | src/analysis.py:41-44 | with distinct names, the candidates for author i are every other position exactly once, in stable distance order |
| `Ranking.Recommend` | src/analysis.py:44-45 | at most five names, never the author's own |
| `Ranking.RecommendOrdered` | src/analysis.py:41-45 | the recommended names are distinct and in stable distance order of their positions |
| `Ranking.RecommendMaximal` | src/analysis.py:41-45 | a name other than the author's that is left out means five were kept, each ranking before it |
| `Ranking.RecommendSpec` | src/analysis.py:36-45 | for distinct author names: the author is absent; the list has min(5, n - 1) distinct names of the list, in stable distance order; any other name left out is no closer than every name kept |
| `Authors.AuthorNames` | src/analysis.py:30-36 | the author names are distinct, and they are exactly the names listed on some paper |
| `Authors.AuthorNamesOrder` | src/analysis.py:30-36 | author names follow the order in which the names first appear across papers and co-author lists |
| `Authors.ContributionsCount` | src/analysis.py:30-33 | an author accumulates one embedding per listing across all papers, so a name listed twice on one paper contributes twice |
| `Authors.ContributionsOfOnePaper` | src/analysis.py:31-33 | an author listed on only one paper accumulates copies of that paper's embedding only |
| `Authors.AddListings` | src/analysis.py:32-33 | the inner loop extends the key order by the new names and appends the paper's embedding once per listing |
| `Authors.AddListing` | src/analysis.py:33 | one `defaultdict` append: the author's list, empty when the author is new, gains the embedding; a new author joins the end of the key order |
| `Authors.AccumulateEmbeddings` | src/analysis.py:30-33 | the nested loop yields the author names in first-appearance order; each author's list is its accumulated embeddings in paper order |
| `Authors.CentroidOfOnePaper` | src/analysis.py:35 | the centroid of an author listed on exactly one paper equals that paper's embedding |
| `Authors.Centroid` | src/analysis.py:35 | an author's mean embedding has the corpus dimension, and each component times the author's number of listings is the sum of that component over the accumulated embeddings |
| `Authors.MeanEmbeddings` | src/analysis.py:35 | entry k is the mean of the embeddings accumulated for author k, one entry per author |
| `Authors.DistanceRow` | src/analysis.py:37 | row k of the author distance matrix: one entry per author, none negative, zero at author k itself |
| `Authors.DistanceMatrix` | src/analysis.py:37 | an empty list of centroids is refused (`NoAuthors`); otherwise row k of the matrix compares the centroid of author k with the centroid of every author, in author order |
| `Authors.DistanceMatrixShape` | src/analysis.py:37 | the author distance matrix has a zero diagonal and is symmetric |
| `Authors.RecommendAll` | src/analysis.py:39-45 | the recommendation dictionary has exactly the author names as keys; author i's entry comes from row i |
| `Authors.SuggestAuthors` | src/analysis.py:28-47 | raises (`NoAuthors`) exactly when no paper lists a co-author; otherwise every author named on any paper gets an entry and nothing else does, and each entry is the ranking of that author's row of centroid distances |
| `Authors.Suggestion` | src/analysis.py:35-45 | no author is recommended to itself; the list has min(5, A - 1) distinct authors of the corpus, ordered by centroid distance with ties in first-appearance order; no author left out is nearer than one kept |
| `Authors.SuggestionOrdered` | src/analysis.py:41-45 | the co-authors recommended to an author are in centroid-distance order, ties in first-appearance order |
| `Authors.SuggestionMaximal` | src/analysis.py:41-45 | an author left out of another author's list, other than itself, means five were kept, all nearer or equally near and earlier |
| `Clusters.MaxLabel` | src/analysis.py:51 | the largest label bounds every label and is one of them |
| `Clusters.MemberIndices` | src/analysis.py:52 | the positions of exactly the papers labelled c, in table order, one per occurrence of c among the labels |
| `Clusters.Members` | src/analysis.py:52 | the abstracts of the papers labelled c, as many as c occurs among the labels, in table order |
| `Clusters.Join` | src/analysis.py:53 | `sep.join(parts)`: empty for no parts, otherwise starting with the first part and ending with the last |
| `Clusters.ClusterText` | src/analysis.py:52-53 | the joined text of cluster c: empty when no paper is labelled c, otherwise starting with the first member's abstract and ending with the last member's |
| `Clusters.ClustersPartition` | src/analysis.py:51-52 | every paper's label lies in the visited range 0 .. max, and the paper is a member of that cluster id only |
| `Clusters.JoinLength` | src/analysis.py:53 | a joined text is the parts plus one separator between each two neighbours |
| `Clusters.EmptyCluster` | src/analysis.py:51-53 | a cluster id that no paper carries yields the empty text |
| `Clusters.SingletonCluster` | src/analysis.py:67-68 | the text of a one-paper cluster is that paper's abstract |
| `Clusters.Phrases` | src/analysis.py:70 | the phrase component of each extractor result, in the extractor's order |
| `Clusters.CreateWordClouds` | src/analysis.py:49-58 | one word cloud per id 0 .. max label, in increasing order, titled with number id + 1 and drawn from that cluster's joined text; an empty label column raises |
| `Clusters.ExtractKeywordsPerCluster` | src/analysis.py:62-71 | one keyword line per id 0 .. max label, in increasing order, numbered id + 1, holding the phrases extracted from that cluster's joined text; an empty label column raises |

## Left out

- `plot_umap` (src/analysis.py:10-20) is a UMAP projection plus a matplotlib scatter plot.
  Both are library work on floats with no discrete logic.
- `perform_clustering` (src/analysis.py:22-26) is a k-means wrapper with a fixed seed.
  The model takes its labels as an input sequence of naturals.
- Floating point: embeddings, means and distances are exact `real`s. NaN, rounding and
  the library's float behaviour are not modelled.
- `Authors.DistanceRow`: uses the squared Euclidean distance, because Dafny's reals
  have no square root. `Ranking.StableOrderUnderTransform` proves that any strictly
  increasing transform of the distances gives the same ranking, so this changes nothing
  the source returns.
- `Authors.DistanceMatrix`: holds squared distances too, for the same reason as `Authors.DistanceRow`.
- `Authors.SuggestAuthors`: requires every embedding to have the same length. numpy
  would raise on ragged vectors, but `Papers.GenerateEmbeddings` only succeeds on
  equal-length rows, as its contract proves, so the pipeline always meets this.
- Internals of the sentence encoder, the keyword extractor (fixed to its 1-2 word,
  English stop-word settings) and the word-cloud generator. They are parameters or
  outputs, and exceptions they raise are not modelled.
- `Clusters.CreateWordClouds`: does not model `WordCloud.generate` raising on a text with
  no words. That happens for every id between 0 and the largest label that no paper
  carries, and for every cluster whose abstracts hold no words. There the source raises,
  while the model returns a figure with an empty text, so `r.Err? <==> |labels| == 0` is
  weaker than the source on such ids. Deciding "no words" needs the library's tokenizer
  and stop-word list, which are not modelled.
- All printing and figure display (src/analysis.py:56-60, 71). The printed keyword
  line is the `ClusterKeywords` value. The string formatting and the `', '` join used
  only for printing are not modelled.
- `download_file_if_not_exists`, `open` and `json.load` (src/utils.py:8-30) are
  network and filesystem work. The model starts from the parsed records.
- Malformed author entries: a missing `person`, `firstname` or `lastname` key raises
  `KeyError`, and a non-string name is formatted by Python's f-string. The `Record`
  type holds string names only, so neither case is represented.
- Non-string abstracts: `paper.get('abstractText', '')` accepts any JSON value. A number
  or a list fails only later, in the encoder or in `' '.join`. `Record.abstractText`
  holds strings only, so this case is not represented.
- DataFrame plumbing: tables are sequences of datatypes. `generate_embeddings` adds its
  column in place, while the model returns a new table.
- src/main.py is orchestration and printing only. The dictionary's key order is
  returned as the `names` sequence beside the map.

Where the design description and the code differ, the model follows the code:

- The loader drops only a record whose abstract is explicitly null. A record without an
  `abstractText` key is kept with abstract `""`.
- The cluster routines visit every id from 0 to the largest label, including ids no
  paper carries; those give the empty text.
- On an empty corpus, `generate_embeddings` fails when it reads the missing `abstract`
  column (`EmptyCorpus`). No separate empty-corpus check exists.
