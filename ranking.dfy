/**
 * The ranking step of author suggestion: the candidates of one distance-matrix row
 * stable-sorted by distance, the author removed by name, the first five kept.
 */
module Ranking {

  import opened Sequences

  /** The number of peers an author is recommended at most. */
  const TopPeers: nat := 5

  /**
   * Candidate `a` comes strictly before candidate `b` in the stable order of `row`:
   * it is closer, or equally close and earlier in the author list.
   */
  predicate Before(row: seq<real>, a: nat, b: nat) {
    a < |row| && b < |row| && (row[a] < row[b] || (row[a] == row[b] && a < b))
  }

  /** Every entry of `s` is a position of `row`. */
  ghost predicate InRange(row: seq<real>, s: seq<nat>) {
    forall k :: 0 <= k < |s| ==> s[k] < |row|
  }

  /** `s` lists candidates in the stable order of `row`. */
  ghost predicate Sorted(row: seq<real>, s: seq<nat>) {
    forall p, q :: 0 <= p < q < |s| ==> Before(row, s[p], s[q])
  }

  ghost predicate Increasing(s: seq<nat>) {
    forall p, q :: 0 <= p < q < |s| ==> s[p] < s[q]
  }

  /**
   * Inserts candidate `x`, which precedes every candidate of `s` in the author list,
   * in front of the first candidate of `s` that is not closer than `x`.
   */
  function Insert(row: seq<real>, x: nat, s: seq<nat>): (r: seq<nat>)
    requires x < |row| && InRange(row, s)
    ensures multiset(r) == multiset(s) + multiset{x}
    ensures InRange(row, r)
  {
    if s == [] then [x]
    else if row[x] <= row[s[0]] then [x] + s
    else
      assert s == [s[0]] + s[1..];
      [s[0]] + Insert(row, x, s[1..])
  }

  /** Insertion sort of the candidates `idxs`, given in author-list order. */
  function SortIndices(row: seq<real>, idxs: seq<nat>): (r: seq<nat>)
    requires InRange(row, idxs)
    ensures InRange(row, r)
  {
    if idxs == [] then [] else Insert(row, idxs[0], SortIndices(row, idxs[1..]))
  }

  lemma InSeq(s: seq<nat>, t: seq<nat>, k: nat)
    requires multiset(s) == multiset(t) && k < |s|
    ensures s[k] in t
  {
    assert s[k] in multiset(s);
  }

  lemma ConsSorted(row: seq<real>, y: nat, t: seq<nat>)
    requires Sorted(row, t)
    requires forall q :: 0 <= q < |t| ==> Before(row, y, t[q])
    ensures Sorted(row, [y] + t)
  {
    var u := [y] + t;
    forall p, q | 0 <= p < q < |u| ensures Before(row, u[p], u[q]) {
      if p == 0 {
        assert u[q] == t[q - 1];
      } else {
        assert u[p] == t[p - 1] && u[q] == t[q - 1];
      }
    }
  }

  lemma {:induction false} InsertSorted(row: seq<real>, x: nat, s: seq<nat>)
    requires x < |row| && InRange(row, s) && Sorted(row, s)
    requires forall k :: 0 <= k < |s| ==> x < s[k]
    ensures Sorted(row, Insert(row, x, s))
  {
    if s == [] {
    } else if row[x] <= row[s[0]] {
      forall q | 0 <= q < |s| ensures Before(row, x, s[q]) {
        if q > 0 {
          assert Before(row, s[0], s[q]);
        }
      }
      ConsSorted(row, x, s);
    } else {
      var t := Insert(row, x, s[1..]);
      InsertSorted(row, x, s[1..]);
      forall q | 0 <= q < |t| ensures Before(row, s[0], t[q]) {
        assert t[q] in multiset(s[1..]) + multiset{x} by {
          assert t[q] in multiset(t);
        }
        if t[q] != x {
          assert t[q] in s[1..];
          var j :| 0 <= j < |s[1..]| && s[1..][j] == t[q];
          assert s[j + 1] == t[q];
        }
      }
      ConsSorted(row, s[0], t);
    }
  }

  lemma {:induction false} SortIndicesSorted(row: seq<real>, idxs: seq<nat>)
    requires InRange(row, idxs) && Increasing(idxs)
    ensures multiset(SortIndices(row, idxs)) == multiset(idxs)
    ensures Sorted(row, SortIndices(row, idxs))
  {
    if idxs != [] {
      var rest := SortIndices(row, idxs[1..]);
      SortIndicesSorted(row, idxs[1..]);
      forall k | 0 <= k < |rest| ensures idxs[0] < rest[k] {
        InSeq(rest, idxs[1..], k);
      }
      InsertSorted(row, idxs[0], rest);
      assert idxs == [idxs[0]] + idxs[1..];
    }
  }

  /**
   * The positions of `row`, stable-sorted by distance: a permutation of 0 .. |row|-1
   * in which each candidate is closer than the next, or equally close and earlier.
   */
  function StableOrder(row: seq<real>): (r: seq<nat>)
    ensures |r| == |row| && InRange(row, r)
    ensures forall i :: 0 <= i < |row| ==> i in r
    ensures Sorted(row, r)
  {
    var idxs := seq(|row|, i => i);
    SortIndicesSorted(row, idxs);
    var r := SortIndices(row, idxs);
    assert |multiset(r)| == |multiset(idxs)|;
    assert forall i :: 0 <= i < |row| ==> i in r by {
      forall i | 0 <= i < |row| ensures i in r {
        assert idxs[i] in multiset(idxs);
      }
    }
    r
  }

  /** `f` is strictly increasing, as the square root is on distances. */
  ghost predicate StrictlyIncreasing(f: real -> real) {
    forall a, b :: a < b ==> f(a) < f(b)
  }

  function Apply(f: real -> real, row: seq<real>): (r: seq<real>)
    ensures |r| == |row|
  {
    seq(|row|, j requires 0 <= j < |row| => f(row[j]))
  }

  lemma {:induction false} InsertUnderTransform(f: real -> real, row: seq<real>, x: nat, s: seq<nat>)
    requires StrictlyIncreasing(f)
    requires x < |row| && InRange(row, s)
    ensures Insert(Apply(f, row), x, s) == Insert(row, x, s)
  {
    if s != [] {
      var a, b := row[x], row[s[0]];
      assert a <= b <==> f(a) <= f(b) by {
        if a < b { assert f(a) < f(b); }
        else if b < a { assert f(b) < f(a); }
      }
      InsertUnderTransform(f, row, x, s[1..]);
    }
  }

  lemma {:induction false} SortIndicesUnderTransform(f: real -> real, row: seq<real>, idxs: seq<nat>)
    requires StrictlyIncreasing(f) && InRange(row, idxs)
    ensures SortIndices(Apply(f, row), idxs) == SortIndices(row, idxs)
  {
    if idxs != [] {
      SortIndicesUnderTransform(f, row, idxs[1..]);
      var rest := SortIndices(row, idxs[1..]);
      InsertUnderTransform(f, row, idxs[0], rest);
    }
  }

  /**
   * Ranking by a strictly increasing transform of the distances gives the same order:
   * sorting squared distances ranks exactly as sorting Euclidean distances does.
   */
  lemma StableOrderUnderTransform(f: real -> real, row: seq<real>)
    requires StrictlyIncreasing(f)
    ensures StableOrder(Apply(f, row)) == StableOrder(row)
  {
    SortIndicesUnderTransform(f, row, seq(|row|, i => i));
  }

  /** The candidates of `order` whose name differs from `author`, in the same order. */
  function ExcludeNamed(names: seq<string>, order: seq<nat>, author: string): (r: seq<nat>)
    requires forall k :: 0 <= k < |order| ==> order[k] < |names|
    ensures forall k :: 0 <= k < |r| ==> r[k] in order && names[r[k]] != author
    ensures forall k :: 0 <= k < |order| && names[order[k]] != author ==> order[k] in r
  {
    if order == [] then []
    else
      var rest := ExcludeNamed(names, order[1..], author);
      assert forall k :: 1 <= k < |order| ==> order[k] == order[1..][k - 1];
      if names[order[0]] != author then [order[0]] + rest else rest
  }

  lemma {:induction false} ExcludeNamedSorted(row: seq<real>, names: seq<string>, order: seq<nat>, author: string)
    requires forall k :: 0 <= k < |order| ==> order[k] < |names|
    requires Sorted(row, order)
    ensures Sorted(row, ExcludeNamed(names, order, author))
  {
    if order != [] {
      ExcludeNamedSorted(row, names, order[1..], author);
      var rest := ExcludeNamed(names, order[1..], author);
      forall k | 0 <= k < |rest| ensures Before(row, order[0], rest[k]) {
        var j :| 0 <= j < |order[1..]| && order[1..][j] == rest[k];
        assert order[j + 1] == rest[k];
      }
    }
  }

  lemma {:induction false} ExcludeNamedNone(names: seq<string>, order: seq<nat>, author: string)
    requires forall k :: 0 <= k < |order| ==> order[k] < |names| && names[order[k]] != author
    ensures ExcludeNamed(names, order, author) == order
  {
    if order != [] {
      ExcludeNamedNone(names, order[1..], author);
    }
  }

  /** Removing by name removes exactly one candidate when the name occurs once. */
  lemma {:induction false} ExcludeNamedLength(names: seq<string>, order: seq<nat>, i: nat)
    requires Distinct(names) && i < |names| && i in order
    requires Distinct(order)
    requires forall k :: 0 <= k < |order| ==> order[k] < |names|
    ensures |ExcludeNamed(names, order, names[i])| == |order| - 1
  {
    if order[0] == i {
      forall k | 0 <= k < |order[1..]| ensures names[order[1..][k]] != names[i] {
        assert order[k + 1] != order[0];
      }
      ExcludeNamedNone(names, order[1..], names[i]);
    } else {
      assert i in order[1..];
      assert Distinct(order[1..]) by {
        forall p, q | 0 <= p < q < |order[1..]| ensures order[1..][p] != order[1..][q] {
          assert order[p + 1] != order[q + 1];
        }
      }
      ExcludeNamedLength(names, order[1..], i);
    }
  }

  /**
   * The candidates other than `author`, nearest first: the positions of `row` in
   * stable order, with every candidate named `author` removed.
   */
  function Peers(names: seq<string>, row: seq<real>, author: string): (r: seq<nat>)
    requires |row| == |names|
    ensures InRange(row, r)
    ensures forall p :: 0 <= p < |r| ==> names[r[p]] != author
    ensures forall k :: 0 <= k < |names| && names[k] != author ==> k in r
    ensures Sorted(row, r)
  {
    var order := StableOrder(row);
    ExcludeNamedSorted(row, names, order, author);
    var r := ExcludeNamed(names, order, author);
    assert forall k :: 0 <= k < |names| && names[k] != author ==> k in r by {
      forall k | 0 <= k < |names| && names[k] != author ensures k in r {
        assert k in order;
        var m := FirstIndex(order, k);
      }
    }
    r
  }

  function Min(a: nat, b: nat): nat {
    if a < b then a else b
  }

  /**
   * The recommendation for `author` from its distance row: the names of its peers in
   * stable distance order, cut to the first five.
   */
  function Recommend(names: seq<string>, row: seq<real>, author: string): (r: seq<string>)
    requires |row| == |names|
    ensures |r| <= TopPeers
    ensures author !in r
  {
    var peers := Peers(names, row, author);
    var ranked := seq(|peers|, p requires 0 <= p < |peers| => names[peers[p]]);
    ranked[..Min(TopPeers, |ranked|)]
  }

  /**
   * For an author list without repeated names, the candidates for author `i` are every
   * other position exactly once, in stable order.
   */
  lemma PeersSpec(names: seq<string>, row: seq<real>, i: nat)
    requires Distinct(names) && |row| == |names| && i < |names|
    ensures var peers := Peers(names, row, names[i]);
      && |peers| == |names| - 1
      && Sorted(row, peers)
      && (forall p :: 0 <= p < |peers| ==> peers[p] != i)
      && (forall k :: 0 <= k < |names| && k != i ==> k in peers)
  {
    var order := StableOrder(row);
    ExcludeNamedSorted(row, names, order, names[i]);
    assert Distinct(order) by {
      forall p, q | 0 <= p < q < |order| ensures order[p] != order[q] {
        assert Before(row, order[p], order[q]);
      }
    }
    ExcludeNamedLength(names, order, i);
    forall k | 0 <= k < |names| && k != i ensures k in Peers(names, row, names[i]) {
      assert k in order;
      assert names[k] != names[i];
    }
  }

  /** A recommendation is the names of the first min(5, |peers|) candidates. */
  lemma RecommendShape(names: seq<string>, row: seq<real>, author: string)
    requires |row| == |names|
    ensures var peers, r := Peers(names, row, author), Recommend(names, row, author);
      && |r| == Min(TopPeers, |peers|)
      && forall p :: 0 <= p < |r| ==> r[p] == names[peers[p]]
  {
  }

  /** With distinct names, the name recommended at place `p` has the `p`-th candidate as its position. */
  lemma RecommendPositions(names: seq<string>, row: seq<real>, i: nat)
    requires Distinct(names) && |row| == |names| && i < |names|
    ensures var peers, r := Peers(names, row, names[i]), Recommend(names, row, names[i]);
      forall p :: 0 <= p < |r| ==> r[p] in names && FirstIndex(names, r[p]) == peers[p]
  {
    var peers, r := Peers(names, row, names[i]), Recommend(names, row, names[i]);
    RecommendShape(names, row, names[i]);
    forall p | 0 <= p < |r| ensures r[p] in names && FirstIndex(names, r[p]) == peers[p] {
      FirstIndexOfDistinct(names, peers[p]);
    }
  }

  /** The names recommended are distinct and in stable distance order. */
  lemma RecommendOrdered(names: seq<string>, row: seq<real>, i: nat)
    requires Distinct(names) && |row| == |names| && i < |names|
    ensures var r := Recommend(names, row, names[i]);
      && Distinct(r)
      && forall p, q :: 0 <= p < q < |r| ==>
           Before(row, FirstIndex(names, r[p]), FirstIndex(names, r[q]))
  {
    var peers, r := Peers(names, row, names[i]), Recommend(names, row, names[i]);
    PeersSpec(names, row, i);
    RecommendShape(names, row, names[i]);
    RecommendPositions(names, row, i);
    forall p, q | 0 <= p < q < |r| ensures r[p] != r[q] {
      assert Before(row, peers[p], peers[q]);
    }
  }

  /** A name other than the author's that is left out comes after every name kept, and five are kept. */
  lemma RecommendMaximal(names: seq<string>, row: seq<real>, i: nat, k: nat)
    requires Distinct(names) && |row| == |names| && i < |names|
    requires k < |names| && k != i && names[k] !in Recommend(names, row, names[i])
    ensures var r := Recommend(names, row, names[i]);
      && |r| == TopPeers
      && forall p :: 0 <= p < |r| ==> Before(row, FirstIndex(names, r[p]), k)
  {
    var peers, r := Peers(names, row, names[i]), Recommend(names, row, names[i]);
    PeersSpec(names, row, i);
    RecommendShape(names, row, names[i]);
    RecommendPositions(names, row, i);
    var pos := FirstIndex(peers, k);
    assert pos >= |r|;
  }

  /**
   * What a recommendation promises when the author list has no repeated name and the
   * author is on it: it leaves the author out, holds min(5, n - 1) distinct names of
   * the list, ranks them by distance with ties in list order, and every name it
   * leaves out other than the author is no closer than any name it keeps.
   */
  lemma RecommendSpec(names: seq<string>, row: seq<real>, i: nat)
    requires Distinct(names) && |row| == |names| && i < |names|
    ensures var r := Recommend(names, row, names[i]);
      && names[i] !in r
      && |r| == Min(TopPeers, |names| - 1)
      && Distinct(r)
      && (forall p :: 0 <= p < |r| ==> r[p] in names)
      && (forall p, q :: 0 <= p < q < |r| ==>
            Before(row, FirstIndex(names, r[p]), FirstIndex(names, r[q])))
      && (forall k :: 0 <= k < |names| && k != i && names[k] !in r ==>
            |r| == TopPeers &&
            forall p :: 0 <= p < |r| ==> Before(row, FirstIndex(names, r[p]), k))
  {
    var r := Recommend(names, row, names[i]);
    PeersSpec(names, row, i);
    RecommendShape(names, row, names[i]);
    RecommendPositions(names, row, i);
    RecommendOrdered(names, row, i);
    forall k | 0 <= k < |names| && k != i && names[k] !in r
      ensures |r| == TopPeers && forall p :: 0 <= p < |r| ==> Before(row, FirstIndex(names, r[p]), k)
    {
      RecommendMaximal(names, row, i, k);
    }
  }

}
