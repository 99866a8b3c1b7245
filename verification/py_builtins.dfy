/** The Python built-ins the facade relies on: `zip`, `set(list)` and a dict
    comprehension over pairs, each with the properties the facade's
    correctness rests on. `Min` only expresses the length `zip` produces. */
module PyBuiltins {

  function Min(a: int, b: int): int
  {
    if a <= b then a else b
  }

  /** No value occurs twice in `s` (the reference notion of "unique ids"). */
  ghost predicate Distinct<T>(s: seq<T>)
  {
    forall i, j :: 0 <= i < j < |s| ==> s[i] != s[j]
  }

  /** `zip(xs, ys)`: pairs positions up to the shorter of the two lists and
      silently drops the rest of the longer one. */
  function Zip<A, B>(xs: seq<A>, ys: seq<B>): (r: seq<(A, B)>)
    ensures |r| == Min(|xs|, |ys|)
    ensures forall i :: 0 <= i < |r| ==> r[i] == (xs[i], ys[i])
  {
    if |xs| == 0 || |ys| == 0 then []
    else [(xs[0], ys[0])] + Zip(xs[1..], ys[1..])
  }

  /** `set(s)`: the elements of a list, duplicates collapsed. */
  function SetOf<T(!new)>(s: seq<T>): (r: set<T>)
    ensures forall x :: x in r <==> x in s
  {
    if |s| == 0 then {} else SetOf(s[..|s| - 1]) + {s[|s| - 1]}
  }

  /** A list extended by one element is duplicate-free exactly when the list
      was and the new element is not already in it. */
  lemma DistinctSnoc<T>(p: seq<T>, x: T)
    ensures Distinct(p + [x]) <==> Distinct(p) && x !in p
  {
    var s := p + [x];
    if Distinct(s) {
      assert forall i, j :: 0 <= i < j < |p| ==> s[i] == p[i] && s[j] == p[j];
      forall k | 0 <= k < |p|
        ensures p[k] != x
      {
        assert s[k] != s[|p|];
      }
    }
  }

  /** `len(set(s)) == len(s)` holds exactly when the list has no repeated
      element: the cardinality test the facade uses is a faithful uniqueness
      test. */
  lemma {:induction false} SetOfSize<T(!new)>(s: seq<T>)
    ensures |SetOf(s)| <= |s|
    ensures |SetOf(s)| == |s| <==> Distinct(s)
  {
    if |s| > 0 {
      var p, x := s[..|s| - 1], s[|s| - 1];
      assert s == p + [x];
      SetOfSize(p);
      DistinctSnoc(p, x);
      assert SetOf(s) == SetOf(p) + {x};
      if x in p {
        assert SetOf(s) == SetOf(p);
      } else {
        assert |SetOf(s)| == |SetOf(p)| + 1;
      }
    }
  }

  /** The dict comprehension `{k: v for k, v in pairs}`: pairs are inserted in
      order, so a later pair overwrites an earlier one with the same key. */
  function DictOf<K, V>(pairs: seq<(K, V)>): (m: map<K, V>)
    ensures forall i :: 0 <= i < |pairs| ==> pairs[i].0 in m
    ensures forall k :: k in m ==> exists i :: 0 <= i < |pairs| && pairs[i].0 == k
  {
    if |pairs| == 0 then map[]
    else DictOf(pairs[..|pairs| - 1])[pairs[|pairs| - 1].0 := pairs[|pairs| - 1].1]
  }

  /** A key bound by the comprehension holds the value of the LAST pair that
      carries it. */
  lemma {:induction false} DictOfLastWins<K, V>(pairs: seq<(K, V)>, i: int)
    requires 0 <= i < |pairs|
    requires forall j :: i < j < |pairs| ==> pairs[j].0 != pairs[i].0
    ensures DictOf(pairs)[pairs[i].0] == pairs[i].1
  {
    if i < |pairs| - 1 {
      var p := pairs[..|pairs| - 1];
      assert forall j :: i < j < |p| ==> p[j] == pairs[j];
      DictOfLastWins(p, i);
      assert p[i] == pairs[i];
    }
  }

  /** With pairwise distinct keys nothing is overwritten: the dictionary has one
      entry per pair. */
  lemma {:induction false} DictOfSizeDistinctKeys<K, V>(pairs: seq<(K, V)>)
    requires forall i, j :: 0 <= i < j < |pairs| ==> pairs[i].0 != pairs[j].0
    ensures |DictOf(pairs)| == |pairs|
  {
    if |pairs| > 0 {
      var p, last := pairs[..|pairs| - 1], pairs[|pairs| - 1];
      assert forall i, j :: 0 <= i < j < |p| ==> p[i] == pairs[i] && p[j] == pairs[j];
      DictOfSizeDistinctKeys(p);
      assert last.0 !in DictOf(p);
      assert DictOf(pairs).Keys == DictOf(p).Keys + {last.0};
    }
  }
}
