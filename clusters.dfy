/**
 * The per-cluster routines of src/analysis.py (`create_word_clouds` and
 * `extract_keywords_per_cluster`): for every cluster id from 0 up to the largest
 * label, the abstracts of the papers with that label are joined into one text, from
 * which a word cloud is drawn and keyword phrases are extracted.
 */
module Clusters {

  import opened Results
  import opened Sequences
  import opened Papers

  /** The largest label of an empty label column is undefined and the loop over ids raises. */
  datatype ClusterError = NoLabels

  /** A word cloud to draw: its one-based number in the title and the text it is generated from. */
  datatype WordCloudFigure = WordCloudFigure(number: nat, text: string)

  /** One printed keyword line: the cluster's one-based number and its keyword phrases. */
  datatype ClusterKeywords = ClusterKeywords(number: nat, keywords: seq<string>)

  /** The keyword extractor's answer: phrases with their relevance, most relevant first. */
  type Extractor = string -> seq<(string, real)>

  /** The largest cluster label. */
  function MaxLabel(labels: seq<nat>): (m: nat)
    requires |labels| > 0
    ensures forall i :: 0 <= i < |labels| ==> labels[i] <= m
    ensures m in labels
  {
    if |labels| == 1 then labels[0]
    else
      var m := MaxLabel(labels[..|labels| - 1]);
      assert labels == labels[..|labels| - 1] + [labels[|labels| - 1]];
      if labels[|labels| - 1] > m then labels[|labels| - 1] else m
  }

  /** The positions of the papers labelled `c`, in table order. */
  function MemberIndices(labels: seq<nat>, c: nat): (ks: seq<nat>)
    ensures forall j :: 0 <= j < |ks| ==> ks[j] < |labels| && labels[ks[j]] == c
    ensures forall i :: 0 <= i < |labels| && labels[i] == c ==> i in ks
    ensures forall p, q :: 0 <= p < q < |ks| ==> ks[p] < ks[q]
    ensures |ks| == Count(labels, c)
  {
    if |labels| == 0 then []
    else
      var init := MemberIndices(labels[..|labels| - 1], c);
      if labels[|labels| - 1] == c then init + [|labels| - 1] else init
  }

  /** The abstracts of the papers labelled `c`, in table order. */
  function Members(papers: seq<EmbeddedPaper>, labels: seq<nat>, c: nat): (texts: seq<string>)
    requires |labels| == |papers|
    ensures |texts| == Count(labels, c)
    ensures forall j :: 0 <= j < |texts| ==> texts[j] == papers[MemberIndices(labels, c)[j]].text
  {
    var ks := MemberIndices(labels, c);
    seq(|ks|, j requires 0 <= j < |ks| => papers[ks[j]].text)
  }

  /** `sep.join(parts)`: the parts in order with `sep` between neighbours. */
  function Join(parts: seq<string>, sep: string): (s: string)
    ensures |parts| == 0 ==> s == ""
    ensures |parts| > 0 ==> parts[0] <= s
    ensures |parts| > 0 ==> |parts[|parts| - 1]| <= |s| && s[|s| - |parts[|parts| - 1]|..] == parts[|parts| - 1]
  {
    if |parts| == 0 then ""
    else if |parts| == 1 then parts[0]
    else Join(parts[..|parts| - 1], sep) + sep + parts[|parts| - 1]
  }

  function TotalLength(parts: seq<string>): nat {
    if |parts| == 0 then 0 else TotalLength(parts[..|parts| - 1]) + |parts[|parts| - 1]|
  }

  /** A joined text holds every part and one separator between each two neighbours. */
  lemma {:induction false} JoinLength(parts: seq<string>, sep: string)
    requires |parts| > 0
    ensures |Join(parts, sep)| == TotalLength(parts) + |sep| * (|parts| - 1)
  {
    if |parts| > 1 {
      var init := parts[..|parts| - 1];
      JoinLength(init, sep);
      if |init| == 1 {
        assert TotalLength(init) == |init[0]|;
      }
      calc {
        |Join(parts, sep)|;
        |Join(init, sep)| + |sep| + |parts[|parts| - 1]|;
        TotalLength(init) + |sep| * (|init| - 1) + |sep| + |parts[|parts| - 1]|;
        TotalLength(parts) + |sep| * (|parts| - 1);
      }
    }
  }

  /** The text of cluster `c`: its members' abstracts joined by single spaces. */
  function ClusterText(papers: seq<EmbeddedPaper>, labels: seq<nat>, c: nat): (text: string)
    requires |labels| == |papers|
    ensures |MemberIndices(labels, c)| == 0 ==> text == ""
    ensures |MemberIndices(labels, c)| > 0 ==>
      && papers[MemberIndices(labels, c)[0]].text <= text
      && var last := papers[MemberIndices(labels, c)[|MemberIndices(labels, c)| - 1]].text;
         |last| <= |text| && text[|text| - |last|..] == last
  {
    Join(Members(papers, labels, c), " ")
  }

  /** A cluster id that no paper carries yields the empty text. */
  lemma EmptyCluster(papers: seq<EmbeddedPaper>, labels: seq<nat>, c: nat)
    requires |labels| == |papers|
    requires forall i :: 0 <= i < |labels| ==> labels[i] != c
    ensures ClusterText(papers, labels, c) == ""
  {
    NoMembers(labels, c);
  }

  lemma {:induction false} NoMembers(labels: seq<nat>, c: nat)
    requires forall i :: 0 <= i < |labels| ==> labels[i] != c
    ensures MemberIndices(labels, c) == []
  {
    if |labels| > 0 {
      NoMembers(labels[..|labels| - 1], c);
    }
  }

  lemma {:induction false} OnlyMember(labels: seq<nat>, c: nat, i: nat)
    requires i < |labels| && labels[i] == c
    requires forall k :: 0 <= k < |labels| && k != i ==> labels[k] != c
    ensures MemberIndices(labels, c) == [i]
  {
    var init := labels[..|labels| - 1];
    if i == |labels| - 1 {
      NoMembers(init, c);
    } else {
      OnlyMember(init, c, i);
    }
  }

  /** A cluster of a single paper has that paper's abstract as its text. */
  lemma SingletonCluster(papers: seq<EmbeddedPaper>, labels: seq<nat>, c: nat, i: nat)
    requires |labels| == |papers| && i < |labels| && labels[i] == c
    requires forall k :: 0 <= k < |labels| && k != i ==> labels[k] != c
    ensures ClusterText(papers, labels, c) == papers[i].text
  {
    OnlyMember(labels, c, i);
  }

  /**
   * Every paper is a member of exactly one of the visited cluster ids: the one its
   * label names, which lies between 0 and the largest label.
   */
  lemma ClustersPartition(labels: seq<nat>, i: nat, c: nat)
    requires i < |labels|
    ensures labels[i] <= MaxLabel(labels)
    ensures i in MemberIndices(labels, c) <==> c == labels[i]
  {
  }

  /** The phrase of every extractor result, in the extractor's order. */
  function Phrases(keywords: seq<(string, real)>): (phrases: seq<string>)
    ensures |phrases| == |keywords|
    ensures forall j :: 0 <= j < |keywords| ==> phrases[j] == keywords[j].0
  {
    if |keywords| == 0 then []
    else Phrases(keywords[..|keywords| - 1]) + [keywords[|keywords| - 1].0]
  }

  /**
   * `create_word_clouds`: one figure per cluster id from 0 up to the largest label,
   * in increasing order, drawn from that cluster's text.
   */
  method CreateWordClouds(papers: seq<EmbeddedPaper>, labels: seq<nat>)
    returns (r: Result<seq<WordCloudFigure>, ClusterError>)
    requires |labels| == |papers|
    ensures r.Err? <==> |labels| == 0
    ensures r.Ok? ==>
      |r.value| == MaxLabel(labels) + 1 &&
      forall c :: 0 <= c < |r.value| ==>
        r.value[c] == WordCloudFigure(c + 1, ClusterText(papers, labels, c))
  {
    if |labels| == 0 {
      return Err(NoLabels);
    }
    var figures: seq<WordCloudFigure> := [];
    for c := 0 to MaxLabel(labels) + 1
      invariant |figures| == c
      invariant forall d :: 0 <= d < c ==> figures[d] == WordCloudFigure(d + 1, ClusterText(papers, labels, d))
    {
      var text := ClusterText(papers, labels, c);
      figures := figures + [WordCloudFigure(c + 1, text)];
    }
    r := Ok(figures);
  }

  /**
   * `extract_keywords_per_cluster`: for each cluster id from 0 up to the largest label,
   * in increasing order, the phrases the extractor finds in that cluster's text.
   */
  method ExtractKeywordsPerCluster(papers: seq<EmbeddedPaper>, labels: seq<nat>, extract: Extractor)
    returns (r: Result<seq<ClusterKeywords>, ClusterError>)
    requires |labels| == |papers|
    ensures r.Err? <==> |labels| == 0
    ensures r.Ok? ==>
      |r.value| == MaxLabel(labels) + 1 &&
      forall c :: 0 <= c < |r.value| ==>
        r.value[c] == ClusterKeywords(c + 1, Phrases(extract(ClusterText(papers, labels, c))))
  {
    if |labels| == 0 {
      return Err(NoLabels);
    }
    var lines: seq<ClusterKeywords> := [];
    for c := 0 to MaxLabel(labels) + 1
      invariant |lines| == c
      invariant forall d :: 0 <= d < c ==>
        lines[d] == ClusterKeywords(d + 1, Phrases(extract(ClusterText(papers, labels, d))))
    {
      var text := ClusterText(papers, labels, c);
      var keywords := extract(text);
      lines := lines + [ClusterKeywords(c + 1, Phrases(keywords))];
    }
    r := Ok(lines);
  }

}
