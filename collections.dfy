/** Sequence helpers shared by the report: order-preserving filtering, first-appearance
    de-duplication, and selecting the k heaviest candidates of a count table. */
module Collections {

  datatype Option<T> = None | Some(value: T)

  function Min(a: int, b: int): int {
    if a <= b then a else b
  }

  predicate NoDuplicates<T(==)>(s: seq<T>) {
    forall i, j :: 0 <= i < j < |s| ==> s[i] != s[j]
  }

  /** The elements of `s` that satisfy `p`, in their original order. */
  function Filter<T(==)>(s: seq<T>, p: T -> bool): (r: seq<T>)
    ensures |r| <= |s|
    ensures forall x :: x in r ==> x in s && p(x)
    ensures forall x :: x in s && p(x) ==> x in r
    decreases |s|
  {
    if s == [] then [] else (if p(s[0]) then [s[0]] else []) + Filter(s[1..], p)
  }

  /** Filtering keeps the order of the parts it is applied to. */
  lemma {:induction false} FilterConcat<T>(a: seq<T>, b: seq<T>, p: T -> bool)
    ensures Filter(a + b, p) == Filter(a, p) + Filter(b, p)
    decreases |a|
  {
    if a == [] {
      assert a + b == b;
    } else {
      var head := if p(a[0]) then [a[0]] else [];
      assert (a + b)[0] == a[0];
      assert (a + b)[1..] == a[1..] + b;
      FilterConcat(a[1..], b, p);
      calc {
        Filter(a + b, p);
        head + Filter(a[1..] + b, p);
        head + (Filter(a[1..], p) + Filter(b, p));
        (head + Filter(a[1..], p)) + Filter(b, p);
      }
    }
  }

  /** Filtering keeps every element satisfying `p` exactly as often as it occurs, and no other. */
  lemma {:induction false} FilterMultiset<T>(s: seq<T>, p: T -> bool)
    ensures forall x :: multiset(Filter(s, p))[x] == if p(x) then multiset(s)[x] else 0
    decreases |s|
  {
    if s != [] {
      FilterMultiset(s[1..], p);
      assert s == [s[0]] + s[1..];
    }
  }

  /** A filter that keeps everything is the identity. */
  lemma {:induction false} FilterAll<T>(s: seq<T>, p: T -> bool)
    requires forall i :: 0 <= i < |s| ==> p(s[i])
    ensures Filter(s, p) == s
    decreases |s|
  {
    if s != [] {
      FilterAll(s[1..], p);
    }
  }

  /** The distinct elements of `s` in the order of their first appearance (pandas `unique`). */
  function Distinct<T(==)>(s: seq<T>): (r: seq<T>)
    ensures NoDuplicates(r)
    ensures forall x :: x in r ==> x in s
    ensures forall x :: x in s ==> x in r
    ensures |r| <= |s|
    decreases |s|
  {
    if s == [] then []
    else
      var init := Distinct(s[..|s| - 1]);
      if s[|s| - 1] in init then init else init + [s[|s| - 1]]
  }

  /** An index of `cands` whose count in `ms` is maximal. */
  function ArgMax<T(==)>(cands: seq<T>, ms: multiset<T>): (i: nat)
    requires |cands| > 0
    ensures i < |cands|
    ensures forall j :: 0 <= j < |cands| ==> ms[cands[j]] <= ms[cands[i]]
    decreases |cands|
  {
    if |cands| == 1 then 0
    else
      var k := 1 + ArgMax(cands[1..], ms);
      if ms[cands[0]] >= ms[cands[k]] then 0 else k
  }

  /** `top` is a valid "k largest" choice from the distinct candidates `cands`, counted by
      `ms`: it has min(k, |cands|) distinct candidates in non-increasing order of count,
      and no candidate left out counts more than one that was kept. Ties may be broken
      any way. */
  ghost predicate IsTopSelection<T>(cands: seq<T>, ms: multiset<T>, k: nat, top: seq<T>) {
    && |top| == Min(k, |cands|)
    && NoDuplicates(top)
    && (forall i :: 0 <= i < |top| ==> top[i] in cands)
    && (forall i, j :: 0 <= i < j < |top| ==> ms[top[j]] <= ms[top[i]])
    && (forall x, i :: x in cands && x !in top && 0 <= i < |top| ==> ms[x] <= ms[top[i]])
  }

  /** One top-k choice: repeatedly take a candidate of maximal count. */
  function SelectTop<T(==)>(cands: seq<T>, ms: multiset<T>, k: nat): (top: seq<T>)
    ensures |top| == Min(k, |cands|)
    decreases k
  {
    if k == 0 || cands == [] then []
    else
      var i := ArgMax(cands, ms);
      [cands[i]] + SelectTop(cands[..i] + cands[i + 1..], ms, k - 1)
  }

  lemma RemoveAt<T>(s: seq<T>, i: nat)
    requires NoDuplicates(s)
    requires i < |s|
    ensures NoDuplicates(s[..i] + s[i + 1..])
    ensures forall x :: x in s[..i] + s[i + 1..] <==> x in s && x != s[i]
  {
    var r := s[..i] + s[i + 1..];
    assert forall j :: 0 <= j < |r| ==> r[j] == if j < i then s[j] else s[j + 1];
    forall x | x in s && x != s[i] ensures x in r {
      var j :| 0 <= j < |s| && s[j] == x;
      assert r[if j < i then j else j - 1] == x;
    }
  }

  // The four parts of TopCons, proved one at a time to keep each proof small.

  lemma TopConsMembers<T>(cands: seq<T>, ms: multiset<T>, i: nat, tail: seq<T>)
    requires NoDuplicates(cands) && i < |cands|
    requires forall j :: 0 <= j < |cands| ==> ms[cands[j]] <= ms[cands[i]]
    requires forall j :: 0 <= j < |tail| ==> tail[j] in cands[..i] + cands[i + 1..]
    ensures forall j :: 0 <= j < |[cands[i]] + tail| ==> ([cands[i]] + tail)[j] in cands
    ensures forall j :: 0 <= j < |[cands[i]] + tail| ==> ms[([cands[i]] + tail)[j]] <= ms[cands[i]]
  {
    RemoveAt(cands, i);
    var top := [cands[i]] + tail;
    forall j | 0 <= j < |top| ensures top[j] in cands && ms[top[j]] <= ms[cands[i]] {
      if j > 0 {
        assert top[j] == tail[j - 1];
      }
      var m :| 0 <= m < |cands| && cands[m] == top[j];
    }
  }

  lemma TopConsDistinct<T>(cands: seq<T>, i: nat, tail: seq<T>)
    requires NoDuplicates(cands) && i < |cands|
    requires NoDuplicates(tail)
    requires forall j :: 0 <= j < |tail| ==> tail[j] in cands[..i] + cands[i + 1..]
    ensures NoDuplicates([cands[i]] + tail)
  {
    RemoveAt(cands, i);
    var top := [cands[i]] + tail;
    forall a, b | 0 <= a < b < |top| ensures top[a] != top[b] {
      assert top[b] == tail[b - 1];
      if a > 0 {
        assert top[a] == tail[a - 1];
      }
    }
  }

  lemma TopConsDominates<T>(cands: seq<T>, ms: multiset<T>, i: nat, tail: seq<T>)
    requires NoDuplicates(cands) && i < |cands|
    requires forall j :: 0 <= j < |cands| ==> ms[cands[j]] <= ms[cands[i]]
    requires forall x, j :: x in cands[..i] + cands[i + 1..] && x !in tail && 0 <= j < |tail| ==> ms[x] <= ms[tail[j]]
    ensures forall x, j :: x in cands && x !in [cands[i]] + tail && 0 <= j < |[cands[i]] + tail| ==> ms[x] <= ms[([cands[i]] + tail)[j]]
  {
    RemoveAt(cands, i);
    var top := [cands[i]] + tail;
    forall x, j | x in cands && x !in top && 0 <= j < |top| ensures ms[x] <= ms[top[j]] {
      var m :| 0 <= m < |cands| && cands[m] == x;
      if j > 0 {
        assert top[j] == tail[j - 1];
        assert x in cands[..i] + cands[i + 1..] && x !in tail;
      }
    }
  }

  lemma TopConsOrdered<T>(cands: seq<T>, ms: multiset<T>, i: nat, tail: seq<T>)
    requires i < |cands|
    requires forall j :: 0 <= j < |tail| ==> ms[tail[j]] <= ms[cands[i]]
    requires forall a, b :: 0 <= a < b < |tail| ==> ms[tail[b]] <= ms[tail[a]]
    ensures forall a, b :: 0 <= a < b < |[cands[i]] + tail| ==>
              ms[([cands[i]] + tail)[b]] <= ms[([cands[i]] + tail)[a]]
  {
    var top := [cands[i]] + tail;
    forall a, b | 0 <= a < b < |top| ensures ms[top[b]] <= ms[top[a]] {
      assert top[b] == tail[b - 1];
      if a > 0 {
        assert top[a] == tail[a - 1];
      }
    }
  }

  /** Putting a candidate of maximal count in front of a top-(k-1) choice from the
      remaining candidates gives a top-k choice. */
  lemma TopCons<T>(cands: seq<T>, ms: multiset<T>, k: nat, i: nat, tail: seq<T>)
    requires NoDuplicates(cands)
    requires 0 < k && i < |cands|
    requires forall j :: 0 <= j < |cands| ==> ms[cands[j]] <= ms[cands[i]]
    requires IsTopSelection(cands[..i] + cands[i + 1..], ms, k - 1, tail)
    ensures IsTopSelection(cands, ms, k, [cands[i]] + tail)
  {
    var top := [cands[i]] + tail;
    TopConsMembers(cands, ms, i, tail);
    TopConsDistinct(cands, i, tail);
    TopConsDominates(cands, ms, i, tail);
    TopConsOrdered(cands, ms, i, tail);
  }

  /** SelectTop makes a valid top-k choice. */
  lemma {:induction false} SelectTopIsTop<T>(cands: seq<T>, ms: multiset<T>, k: nat)
    requires NoDuplicates(cands)
    ensures IsTopSelection(cands, ms, k, SelectTop(cands, ms, k))
    decreases k
  {
    if k != 0 && cands != [] {
      var i := ArgMax(cands, ms);
      var rest := cands[..i] + cands[i + 1..];
      RemoveAt(cands, i);
      SelectTopIsTop(rest, ms, k - 1);
      TopCons(cands, ms, k, i, SelectTop(rest, ms, k - 1));
    }
  }
}
