/**
 * Author suggestion (`suggest_authors` in src/analysis.py): every co-author's paper
 * embeddings are accumulated and averaged into a centroid, the centroids are compared
 * pairwise, and each author is recommended the five nearest other authors.
 */
module Authors {

  import opened Results
  import opened Sequences
  import opened Vectors
  import opened Ranking
  import opened Papers

  /** Every co-author name of every paper, in paper order and list order. */
  function Mentions(papers: seq<EmbeddedPaper>): seq<string> {
    if |papers| == 0 then []
    else Mentions(papers[..|papers| - 1]) + papers[|papers| - 1].coAuthors
  }

  /** `author_names`: the distinct co-author names, in order of first appearance. */
  function AuthorNames(papers: seq<EmbeddedPaper>): (names: seq<string>)
    ensures forall i :: 0 <= i < |names| ==> names[i] in Mentions(papers)
    ensures forall i :: 0 <= i < |Mentions(papers)| ==> Mentions(papers)[i] in names
    ensures Distinct(names)
  {
    DedupSpec(Mentions(papers));
    Dedup(Mentions(papers))
  }

  /** There are no author names exactly when no paper lists a co-author. */
  lemma NoAuthorNames(papers: seq<EmbeddedPaper>)
    ensures |AuthorNames(papers)| == 0 <==> |Mentions(papers)| == 0
  {
    if |Mentions(papers)| > 0 {
      assert Mentions(papers)[0] in AuthorNames(papers);
    }
  }

  /**
   * The embeddings accumulated for `author`: a paper's embedding once for each time
   * the paper lists the author, papers taken in table order.
   */
  function Contributions(papers: seq<EmbeddedPaper>, author: string): seq<Vector> {
    if |papers| == 0 then []
    else
      var p := papers[|papers| - 1];
      Contributions(papers[..|papers| - 1], author) + Repeat(p.embedding, Count(p.coAuthors, author))
  }

  /** An author accumulates exactly one embedding per listing across all papers. */
  lemma {:induction false} ContributionsCount(papers: seq<EmbeddedPaper>, author: string)
    ensures |Contributions(papers, author)| == Count(Mentions(papers), author)
  {
    if |papers| > 0 {
      var init := papers[..|papers| - 1];
      ContributionsCount(init, author);
      CountConcat(Mentions(init), papers[|papers| - 1].coAuthors, author);
    }
  }

  lemma {:induction false} ContributionsDim(papers: seq<EmbeddedPaper>, author: string, d: nat)
    requires forall k :: 0 <= k < |papers| ==> |papers[k].embedding| == d
    ensures HasDim(Contributions(papers, author), d)
  {
    if |papers| > 0 {
      ContributionsDim(papers[..|papers| - 1], author, d);
    }
  }

  /** Only paper `k` lists `author`: all its accumulated embeddings are that paper's. */
  lemma {:induction false} ContributionsOfOnePaper(papers: seq<EmbeddedPaper>, author: string, k: nat)
    requires k < |papers|
    requires forall l :: 0 <= l < |papers| && l != k ==> author !in papers[l].coAuthors
    ensures Contributions(papers, author) == Repeat(papers[k].embedding, Count(papers[k].coAuthors, author))
  {
    var last := papers[|papers| - 1];
    var init := papers[..|papers| - 1];
    if k == |papers| - 1 {
      ContributionsNone(init, author);
    } else {
      ContributionsOfOnePaper(init, author, k);
      CountPositive(last.coAuthors, author);
      assert Repeat(last.embedding, 0) == [];
    }
  }

  lemma {:induction false} ContributionsNone(papers: seq<EmbeddedPaper>, author: string)
    requires forall l :: 0 <= l < |papers| ==> author !in papers[l].coAuthors
    ensures Contributions(papers, author) == []
  {
    if |papers| > 0 {
      ContributionsNone(papers[..|papers| - 1], author);
      CountPositive(papers[|papers| - 1].coAuthors, author);
    }
  }

  lemma DedupSnoc(s: seq<string>, x: string)
    ensures Dedup(s + [x]) == if x in Dedup(s) then Dedup(s) else Dedup(s) + [x]
  {
    assert (s + [x])[..|s|] == s;
  }

  /** One more listing of `author` on the paper being read adds one more copy of its embedding. */
  lemma CountSnoc(authors: seq<string>, j: nat, a: string)
    requires j < |authors|
    ensures Count(authors[..j + 1], a) == Count(authors[..j], a) + (if authors[j] == a then 1 else 0)
  {
    assert authors[..j + 1][..j] == authors[..j];
  }

  lemma ContributionsSnoc(papers: seq<EmbeddedPaper>, k: nat, a: string)
    requires k < |papers|
    ensures Contributions(papers[..k + 1], a)
         == Contributions(papers[..k], a) + Repeat(papers[k].embedding, Count(papers[k].coAuthors, a))
  {
    assert papers[..k + 1][..k] == papers[..k];
  }

  lemma MentionsSnoc(papers: seq<EmbeddedPaper>, k: nat)
    requires k < |papers|
    ensures Mentions(papers[..k + 1]) == Mentions(papers[..k]) + papers[k].coAuthors
  {
    assert papers[..k + 1][..k] == papers[..k];
  }

  /** An author not yet seen has accumulated nothing. */
  lemma NothingYet(papers: seq<EmbeddedPaper>, k: nat, a: string)
    requires k <= |papers| && a !in Dedup(Mentions(papers[..k]))
    ensures Contributions(papers[..k], a) == []
  {
    DedupSpec(Mentions(papers[..k]));
    CountPositive(Mentions(papers[..k]), a);
    ContributionsCount(papers[..k], a);
  }

  /**
   * The inner loop of `suggest_authors` over one paper's co-author list: each listing
   * appends the paper's embedding to the author's list, creating the list, at the end
   * of the author order, for an author not seen before.
   */
  method AddListings(names0: seq<string>, groups0: map<string, seq<Vector>>, ghost seen: seq<string>,
                     authors: seq<string>, embedding: Vector)
    returns (names: seq<string>, groups: map<string, seq<Vector>>)
    requires names0 == Dedup(seen)
    requires forall a :: a in groups0 <==> a in names0
    ensures names == Dedup(seen + authors)
    ensures forall a :: a in groups <==> a in names
    ensures forall a :: a in groups ==>
      groups[a] == Prior(groups0, a) + Repeat(embedding, Count(authors, a))
  {
    names, groups := names0, groups0;
    var j := 0;
    assert seen + authors[..0] == seen;
    while j < |authors|
      invariant 0 <= j <= |authors|
      invariant names == Dedup(seen + authors[..j])
      invariant forall a :: a in groups <==> a in names
      invariant forall a :: a in groups0 ==> a in groups
      invariant forall a :: a in groups ==>
        groups[a] == Prior(groups0, a) + Repeat(embedding, Count(authors[..j], a))
    {
      var author := authors[j];
      PrefixSnoc(seen, authors, j);
      DedupSnoc(seen + authors[..j], author);
      DedupMember(seen + authors[..j], author);
      ListingStep(groups0, groups, authors, j, embedding);
      names, groups := AddListing(names, groups, author, embedding);
      j := j + 1;
    }
    assert authors[..j] == authors;
  }

  /**
   * One listing, `author_embeddings[author].append(embedding)` on a `defaultdict`: the
   * author's list, empty if the author is new, gets the embedding appended, and a new
   * author is added at the end of the key order.
   */
  method AddListing(names0: seq<string>, groups0: map<string, seq<Vector>>, author: string, embedding: Vector)
    returns (names: seq<string>, groups: map<string, seq<Vector>>)
    requires forall a :: a in groups0 <==> a in names0
    ensures names == if author in names0 then names0 else names0 + [author]
    ensures forall a :: a in groups <==> a in names
    ensures groups == groups0[author := Prior(groups0, author) + [embedding]]
  {
    names := names0;
    if author !in groups0 {
      names := names + [author];
    }
    groups := groups0[author := Prior(groups0, author) + [embedding]];
  }

  /** Appending the embedding for listing `j` keeps every list equal to its prior part plus one copy per listing so far. */
  lemma ListingStep(groups0: map<string, seq<Vector>>, groups: map<string, seq<Vector>>,
                    authors: seq<string>, j: nat, embedding: Vector)
    requires j < |authors|
    requires forall a :: a in groups ==>
      groups[a] == Prior(groups0, a) + Repeat(embedding, Count(authors[..j], a))
    requires authors[j] !in groups ==> authors[j] !in groups0 && authors[j] !in authors[..j]
    ensures var author := authors[j];
      var next := groups[author := Prior(groups, author) + [embedding]];
      forall a :: a in next ==>
        next[a] == Prior(groups0, a) + Repeat(embedding, Count(authors[..j + 1], a))
  {
    var author := authors[j];
    var next := groups[author := Prior(groups, author) + [embedding]];
    forall a | a in next
      ensures next[a] == Prior(groups0, a) + Repeat(embedding, Count(authors[..j + 1], a))
    {
      CountSnoc(authors, j, a);
      if a == author {
        if author !in groups {
          CountPositive(authors[..j], author);
        }
        RepeatSnoc(embedding, Count(authors[..j], a));
      }
    }
  }

  /** What an author had accumulated before the current paper. */
  function Prior(groups: map<string, seq<Vector>>, a: string): seq<Vector> {
    if a in groups then groups[a] else []
  }

  /** The nested loop of `suggest_authors` that fills `author_embeddings`. */
  method AccumulateEmbeddings(papers: seq<EmbeddedPaper>)
    returns (names: seq<string>, groups: map<string, seq<Vector>>)
    ensures names == AuthorNames(papers)
    ensures forall a :: a in groups <==> a in names
    ensures forall a :: a in groups ==> groups[a] == Contributions(papers, a)
  {
    names, groups := [], map[];
    var k := 0;
    while k < |papers|
      invariant 0 <= k <= |papers|
      invariant names == Dedup(Mentions(papers[..k]))
      invariant forall a :: a in groups <==> a in names
      invariant forall a :: a in groups ==> groups[a] == Contributions(papers[..k], a)
    {
      var groups0 := groups;
      names, groups := AddListings(names, groups, Mentions(papers[..k]), papers[k].coAuthors, papers[k].embedding);
      forall a | a in groups ensures groups[a] == Contributions(papers[..k + 1], a) {
        ContributionsSnoc(papers, k, a);
        if a !in groups0 {
          NothingYet(papers, k, a);
        }
      }
      MentionsSnoc(papers, k);
      k := k + 1;
    }
    assert papers[..k] == papers;
  }

  /** `suggest_authors` relies on every embedding having `Dim(papers)` components. */
  function Dim(papers: seq<EmbeddedPaper>): nat {
    if |papers| == 0 then 0 else |papers[0].embedding|
  }

  /** An author's centroid: the element-wise mean of the embeddings accumulated for it. */
  function Centroid(papers: seq<EmbeddedPaper>, author: string): (c: Vector)
    requires SameDimension(papers) && author in Mentions(papers)
    ensures |c| == Dim(papers)
    ensures HasDim(Contributions(papers, author), Dim(papers))
    ensures forall j :: 0 <= j < Dim(papers) ==>
      c[j] * (Count(Mentions(papers), author) as real) == SumAt(Contributions(papers, author), j)
  {
    var vs := Contributions(papers, author);
    ContributionsCount(papers, author);
    CountPositive(Mentions(papers), author);
    ContributionsDim(papers, author, Dim(papers));
    var m := Mean(vs, Dim(papers));
    assert |vs| as real == Count(Mentions(papers), author) as real;
    m
  }

  /**
   * An author listed on exactly one paper has that paper's embedding as its centroid,
   * however many times the paper lists it.
   */
  lemma CentroidOfOnePaper(papers: seq<EmbeddedPaper>, author: string, k: nat)
    requires SameDimension(papers) && k < |papers| && author in papers[k].coAuthors
    requires forall l :: 0 <= l < |papers| && l != k ==> author !in papers[l].coAuthors
    ensures author in Mentions(papers)
    ensures Centroid(papers, author) == papers[k].embedding
  {
    ContributionsOfOnePaper(papers, author, k);
    ContributionsCount(papers, author);
    CountPositive(papers[k].coAuthors, author);
    CountPositive(Mentions(papers), author);
    MeanOfCopies(papers[k].embedding, Count(papers[k].coAuthors, author));
  }

  /** Row `k` of the distance matrix: the distance from author `k` to every author. */
  function DistanceRow(papers: seq<EmbeddedPaper>, k: nat): (row: seq<real>)
    requires SameDimension(papers) && k < |AuthorNames(papers)|
    ensures |row| == |AuthorNames(papers)|
    ensures row[k] == 0.0
    ensures forall j :: 0 <= j < |row| ==> row[j] >= 0.0
  {
    var names := AuthorNames(papers);
    SqDistSelf(Centroid(papers, names[k]));
    seq(|names|, j requires 0 <= j < |names| =>
      SqDist(Centroid(papers, names[k]), Centroid(papers, names[j])))
  }

  /** The distance matrix is symmetric with a zero diagonal. */
  lemma DistanceMatrixShape(papers: seq<EmbeddedPaper>, k: nat, j: nat)
    requires SameDimension(papers) && k < |AuthorNames(papers)| && j < |AuthorNames(papers)|
    ensures DistanceRow(papers, k)[k] == 0.0
    ensures DistanceRow(papers, k)[j] == DistanceRow(papers, j)[k]
  {
    var names := AuthorNames(papers);
    SqDistSelf(Centroid(papers, names[k]));
    SqDistSymmetric(Centroid(papers, names[k]), Centroid(papers, names[j]));
  }

  /** `euclidean_distances` rejects an empty list of centroids, so a corpus without co-authors raises. */
  datatype SuggestError = NoAuthors

  /**
   * `suggest_authors`: accumulate the embeddings, average them into centroids, compare
   * all centroids pairwise and rank, for each author, the other authors by distance.
   * The author names are returned with the recommendations, as the dictionary's order.
   */
  method SuggestAuthors(papers: seq<EmbeddedPaper>)
    returns (r: Result<(seq<string>, map<string, seq<string>>), SuggestError>)
    requires SameDimension(papers)
    ensures r.Err? <==> |Mentions(papers)| == 0
    ensures r.Ok? ==>
      var (names, recommendations) := r.value;
      && names == AuthorNames(papers)
      && (forall a :: a in recommendations <==> a in Mentions(papers))
      && forall k :: 0 <= k < |names| ==>
           recommendations[names[k]] == Recommend(names, DistanceRow(papers, k), names[k])
  {
    var names, groups := AccumulateEmbeddings(papers);
    var centroids := MeanEmbeddings(papers, names, groups);
    var matrix := DistanceMatrix(papers, centroids);
    NoAuthorNames(papers);
    if matrix.Err? {
      return Err(NoAuthors);
    }
    var recommendations := RecommendAll(names, matrix.value);
    r := Ok((names, recommendations));
  }

  /** `author_mean_embeddings`, in author order: the mean of each author's accumulated embeddings. */
  method MeanEmbeddings(papers: seq<EmbeddedPaper>, names: seq<string>, groups: map<string, seq<Vector>>)
    returns (centroids: seq<Vector>)
    requires SameDimension(papers) && names == AuthorNames(papers)
    requires forall a :: a in groups <==> a in names
    requires forall a :: a in groups ==> groups[a] == Contributions(papers, a)
    ensures |centroids| == |names|
    ensures forall k :: 0 <= k < |names| ==>
      names[k] in Mentions(papers) && centroids[k] == Centroid(papers, names[k])
  {
    var dim := if |papers| == 0 then 0 else |papers[0].embedding|;
    forall a | a in groups ensures |groups[a]| > 0 && HasDim(groups[a], dim) {
      ContributionsCount(papers, a);
      CountPositive(Mentions(papers), a);
      ContributionsDim(papers, a, dim);
    }
    centroids := seq(|names|, k requires 0 <= k < |names| => Mean(groups[names[k]], dim));
  }

  /**
   * `euclidean_distances` over the centroids, squared: row `k` compares author `k` with
   * every author. An empty list of centroids is refused.
   */
  method DistanceMatrix(papers: seq<EmbeddedPaper>, centroids: seq<Vector>)
    returns (r: Result<seq<seq<real>>, SuggestError>)
    requires SameDimension(papers) && |centroids| == |AuthorNames(papers)|
    requires forall k :: 0 <= k < |centroids| ==>
      AuthorNames(papers)[k] in Mentions(papers) && centroids[k] == Centroid(papers, AuthorNames(papers)[k])
    ensures r.Err? <==> |centroids| == 0
    ensures r.Ok? ==>
      |r.value| == |centroids| && forall k :: 0 <= k < |centroids| ==> r.value[k] == DistanceRow(papers, k)
  {
    var n := |centroids|;
    if n == 0 {
      return Err(NoAuthors);
    }
    var matrix := seq(n, i requires 0 <= i < n => seq(n, j requires 0 <= j < n => SqDist(centroids[i], centroids[j])));
    forall k | 0 <= k < n ensures matrix[k] == DistanceRow(papers, k) {
      assert forall j :: 0 <= j < n ==> matrix[k][j] == DistanceRow(papers, k)[j];
    }
    r := Ok(matrix);
  }

  /**
   * The loop of `suggest_authors` that fills `author_recommendations`: author `i` is
   * given the recommendation computed from row `i` of the distance matrix.
   */
  method RecommendAll(names: seq<string>, matrix: seq<seq<real>>)
    returns (recommendations: map<string, seq<string>>)
    requires Distinct(names) && |matrix| == |names|
    requires forall i :: 0 <= i < |matrix| ==> |matrix[i]| == |names|
    ensures forall a :: a in recommendations <==> a in names
    ensures forall k :: 0 <= k < |names| ==>
      recommendations[names[k]] == Recommend(names, matrix[k], names[k])
  {
    recommendations := map[];
    for i := 0 to |names|
      invariant forall a :: a in recommendations <==> a in names[..i]
      invariant forall k :: 0 <= k < i ==>
        recommendations[names[k]] == Recommend(names, matrix[k], names[k])
    {
      assert names[..i + 1] == names[..i] + [names[i]];
      recommendations := recommendations[names[i] := Recommend(names, matrix[i], names[i])];
    }
    assert names[..|names|] == names;
  }

  /**
   * Candidate `x` ranks before candidate `y` for `author`: its centroid is nearer to
   * the author's, or equally near and `x` appears first in the author list.
   */
  ghost predicate RanksBefore(papers: seq<EmbeddedPaper>, author: string, x: string, y: string)
    requires SameDimension(papers)
    requires author in Mentions(papers) && x in Mentions(papers) && y in Mentions(papers)
  {
    var c := Centroid(papers, author);
    var names := AuthorNames(papers);
    SqDist(c, Centroid(papers, x)) < SqDist(c, Centroid(papers, y))
    || (SqDist(c, Centroid(papers, x)) == SqDist(c, Centroid(papers, y))
        && FirstIndex(names, x) < FirstIndex(names, y))
  }

  /**
   * What `suggest_authors` promises each author: its own name is not recommended, it
   * gets min(5, A - 1) distinct co-authors of the corpus for A authors, ranked by
   * centroid distance with ties in first-appearance order, and no co-author left
   * out is nearer than one kept.
   */
  lemma Suggestion(papers: seq<EmbeddedPaper>, k: nat)
    requires SameDimension(papers) && k < |AuthorNames(papers)|
    ensures var names := AuthorNames(papers);
      var author := names[k];
      var r := Recommend(names, DistanceRow(papers, k), author);
      && author !in r
      && |r| == Min(TopPeers, |names| - 1)
      && Distinct(r)
      && (forall p :: 0 <= p < |r| ==> r[p] in Mentions(papers))
      && (forall p, q :: 0 <= p < q < |r| ==> RanksBefore(papers, author, r[p], r[q]))
      && (forall x :: x in Mentions(papers) && x != author && x !in r ==>
            |r| == TopPeers && forall p :: 0 <= p < |r| ==> RanksBefore(papers, author, r[p], x))
  {
    var names := AuthorNames(papers);
    var row := DistanceRow(papers, k);
    var r := Recommend(names, row, names[k]);
    RecommendSpec(names, row, k);
    SuggestionOrdered(papers, k);
    forall x | x in Mentions(papers) && x != names[k] && x !in r
      ensures |r| == TopPeers && forall p :: 0 <= p < |r| ==> RanksBefore(papers, names[k], r[p], x)
    {
      SuggestionMaximal(papers, k, x);
    }
  }

  /** The co-authors recommended are in centroid-distance order, ties in first-appearance order. */
  lemma SuggestionOrdered(papers: seq<EmbeddedPaper>, k: nat)
    requires SameDimension(papers) && k < |AuthorNames(papers)|
    ensures var names := AuthorNames(papers);
      var r := Recommend(names, DistanceRow(papers, k), names[k]);
      && (forall p :: 0 <= p < |r| ==> r[p] in Mentions(papers))
      && forall p, q :: 0 <= p < q < |r| ==> RanksBefore(papers, names[k], r[p], r[q])
  {
    var names := AuthorNames(papers);
    var row := DistanceRow(papers, k);
    var r := Recommend(names, row, names[k]);
    RecommendOrdered(names, row, k);
    RecommendPositions(names, row, k);
    forall p, q | 0 <= p < q < |r| ensures RanksBefore(papers, names[k], r[p], r[q]) {
      RanksBeforeAsBefore(papers, k, r[p], r[q]);
    }
  }

  /** A co-author left out of a recommendation ranks after every co-author kept, and five are kept. */
  lemma SuggestionMaximal(papers: seq<EmbeddedPaper>, k: nat, x: string)
    requires SameDimension(papers) && k < |AuthorNames(papers)|
    requires x in Mentions(papers) && x != AuthorNames(papers)[k]
    requires x !in Recommend(AuthorNames(papers), DistanceRow(papers, k), AuthorNames(papers)[k])
    ensures var names := AuthorNames(papers);
      var r := Recommend(names, DistanceRow(papers, k), names[k]);
      && |r| == TopPeers
      && (forall p :: 0 <= p < |r| ==> r[p] in Mentions(papers))
      && forall p :: 0 <= p < |r| ==> RanksBefore(papers, names[k], r[p], x)
  {
    var names := AuthorNames(papers);
    var row := DistanceRow(papers, k);
    var r := Recommend(names, row, names[k]);
    DedupMember(Mentions(papers), x);
    var j := FirstIndex(names, x);
    RecommendSpec(names, row, k);
    forall p | 0 <= p < |r| ensures RanksBefore(papers, names[k], r[p], x) {
      RanksBeforeAsBefore(papers, k, r[p], x);
    }
  }

  /** Ranking by centroid distance is the stable order of the author's distance row. */
  lemma RanksBeforeAsBefore(papers: seq<EmbeddedPaper>, k: nat, x: string, y: string)
    requires SameDimension(papers) && k < |AuthorNames(papers)|
    requires x in AuthorNames(papers) && y in AuthorNames(papers)
    ensures AuthorNames(papers)[k] in Mentions(papers) && x in Mentions(papers) && y in Mentions(papers)
    ensures var names := AuthorNames(papers);
      (RanksBefore(papers, names[k], x, y)
       <==> Before(DistanceRow(papers, k), FirstIndex(names, x), FirstIndex(names, y)))
  {
    var names := AuthorNames(papers);
    var i, j := FirstIndex(names, x), FirstIndex(names, y);
    assert names[i] == x && names[j] == y;
  }

  /** Author names are distinct, cover every co-author, and follow first appearance. */
  lemma AuthorNamesOrder(papers: seq<EmbeddedPaper>, p: nat, q: nat)
    requires p < q < |AuthorNames(papers)|
    ensures Distinct(AuthorNames(papers))
    ensures forall x :: x in AuthorNames(papers) <==> x in Mentions(papers)
    ensures FirstIndex(Mentions(papers), AuthorNames(papers)[p])
          < FirstIndex(Mentions(papers), AuthorNames(papers)[q])
  {
    DedupFirstAppearance(Mentions(papers), p, q);
  }

}
