/** Facts about sequences shared by the loader, the author ranking and the cluster routines. */
module Sequences {

  /** No element of `s` occurs twice. */
  ghost predicate Distinct<T>(s: seq<T>) {
    forall p, q :: 0 <= p < q < |s| ==> s[p] != s[q]
  }

  /** `n` copies of `x`. */
  function Repeat<T>(x: T, n: nat): (r: seq<T>)
    ensures |r| == n
    ensures forall i :: 0 <= i < n ==> r[i] == x
  {
    seq(n, _ => x)
  }

  lemma RepeatSnoc<T>(x: T, n: nat)
    ensures Repeat(x, n + 1) == Repeat(x, n) + [x]
  {
  }

  /** Extending a prefix of `t` by one element, after a fixed start `s`. */
  lemma PrefixSnoc<T>(s: seq<T>, t: seq<T>, j: nat)
    requires j < |t|
    ensures s + t[..j + 1] == (s + t[..j]) + [t[j]]
  {
    assert t[..j + 1] == t[..j] + [t[j]];
  }

  /** The number of occurrences of `x` in `s`. */
  function Count<T(==)>(s: seq<T>, x: T): nat {
    if |s| == 0 then 0
    else Count(s[..|s| - 1], x) + (if s[|s| - 1] == x then 1 else 0)
  }

  lemma {:induction false} CountConcat<T>(s: seq<T>, t: seq<T>, x: T)
    ensures Count(s + t, x) == Count(s, x) + Count(t, x)
  {
    if |t| == 0 {
      assert s + t == s;
    } else {
      assert (s + t)[..|s + t| - 1] == s + t[..|t| - 1];
      CountConcat(s, t[..|t| - 1], x);
    }
  }

  lemma {:induction false} CountPositive<T>(s: seq<T>, x: T)
    ensures Count(s, x) > 0 <==> x in s
  {
    if |s| > 0 {
      CountPositive(s[..|s| - 1], x);
      assert s == s[..|s| - 1] + [s[|s| - 1]];
    }
  }

  /**
   * The distinct elements of `s`, each kept at its first occurrence: the order in
   * which a dictionary keyed by the elements of `s` would list its keys.
   */
  function Dedup<T(==)>(s: seq<T>): (r: seq<T>) {
    if |s| == 0 then []
    else
      var d := Dedup(s[..|s| - 1]);
      if s[|s| - 1] in d then d else d + [s[|s| - 1]]
  }

  /** `Dedup` keeps every element of `s` and nothing else, and repeats none. */
  lemma {:induction false} DedupSpec<T>(s: seq<T>)
    ensures forall i :: 0 <= i < |Dedup(s)| ==> Dedup(s)[i] in s
    ensures forall i :: 0 <= i < |s| ==> s[i] in Dedup(s)
    ensures Distinct(Dedup(s))
  {
    if |s| > 0 {
      DedupSpec(s[..|s| - 1]);
      assert s == s[..|s| - 1] + [s[|s| - 1]];
    }
  }

  /** The position of the first occurrence of `x` in `s`. */
  function FirstIndex<T(==)>(s: seq<T>, x: T): (i: nat)
    requires x in s
    ensures i < |s| && s[i] == x
    ensures forall j :: 0 <= j < i ==> s[j] != x
  {
    if s[0] == x then 0 else 1 + FirstIndex(s[1..], x)
  }

  lemma FirstIndexUnique<T>(s: seq<T>, x: T, i: nat)
    requires i < |s| && s[i] == x
    requires forall j :: 0 <= j < i ==> s[j] != x
    ensures FirstIndex(s, x) == i
  {
  }

  lemma DedupMember<T>(s: seq<T>, x: T)
    ensures x in Dedup(s) <==> x in s
  {
    DedupSpec(s);
  }

  /** In a sequence without repetitions an element's first index is its only index. */
  lemma FirstIndexOfDistinct<T>(s: seq<T>, k: nat)
    requires Distinct(s) && k < |s|
    ensures FirstIndex(s, s[k]) == k
  {
    FirstIndexUnique(s, s[k], k);
  }

  lemma FirstIndexPrefix<T>(s: seq<T>, y: T, x: T)
    requires x in s
    ensures FirstIndex(s + [y], x) == FirstIndex(s, x)
  {
    var i := FirstIndex(s, x);
    FirstIndexUnique(s + [y], x, i);
  }

  /** `Dedup` lists the elements of `s` in the order of their first occurrences. */
  lemma {:induction false} DedupFirstAppearance<T>(s: seq<T>, p: nat, q: nat)
    requires p < q < |Dedup(s)|
    ensures Dedup(s)[p] in s && Dedup(s)[q] in s
    ensures FirstIndex(s, Dedup(s)[p]) < FirstIndex(s, Dedup(s)[q])
  {
    var init, y := s[..|s| - 1], s[|s| - 1];
    assert s == init + [y];
    var d := Dedup(init);
    DedupSpec(init);
    if y in d {
      DedupFirstAppearance(init, p, q);
      FirstIndexPrefix(init, y, d[p]);
      FirstIndexPrefix(init, y, d[q]);
    } else if q < |d| {
      DedupFirstAppearance(init, p, q);
      FirstIndexPrefix(init, y, d[p]);
      FirstIndexPrefix(init, y, d[q]);
    } else {
      FirstIndexPrefix(init, y, d[p]);
      assert y !in init;
      FirstIndexUnique(s, y, |init|);
    }
  }

}
