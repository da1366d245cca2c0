/**
 * Duplicate removal as the `nub` package does it: `NubBy` walks the list
 * left to right and keeps an element unless it is "the same" as one already
 * kept; `Dedup` is the plain version with equality.
 */
module Nub {

  /** No value occurs twice in `s`. */
  ghost predicate Distinct<T>(s: seq<T>) {
    forall i, j :: 0 <= i < j < |s| ==> s[i] != s[j]
  }

  /** `s` is `t` with some elements left out, the rest kept in order. */
  ghost predicate IsSubseq<T>(s: seq<T>, t: seq<T>)
    decreases |t|
  {
    if s == [] then true
    else if t == [] then false
    else (s[|s| - 1] == t[|t| - 1] && IsSubseq(s[..|s| - 1], t[..|t| - 1]))
         || IsSubseq(s, t[..|t| - 1])
  }

  function NubBy<T>(xs: seq<T>, same: (T, T) -> bool): (kept: seq<T>)
    decreases |xs|
  {
    if xs == [] then []
    else
      var kept := NubBy(xs[..|xs| - 1], same);
      var x := xs[|xs| - 1];
      if exists i :: 0 <= i < |kept| && same(x, kept[i]) then kept else kept + [x]
  }

  /**
   * What `NubBy` keeps: a subsequence of its input in which no element is the
   * same as one kept before it, which covers every input element (each one
   * was kept or is the same as a kept one), and which consists of exactly the
   * elements not the same as an earlier kept one, in input order.
   */
  lemma NubBySpec<T>(xs: seq<T>, same: (T, T) -> bool)
    ensures exists idx :: KeptAt(xs, same, NubBy(xs, same), idx)
    ensures IsSubseq(NubBy(xs, same), xs)
    ensures forall i, j :: 0 <= i < j < |NubBy(xs, same)| ==>
              !same(NubBy(xs, same)[j], NubBy(xs, same)[i])
    ensures forall x :: x in xs ==>
              x in NubBy(xs, same) || exists k :: k in NubBy(xs, same) && same(x, k)
  {
    NubByFirst(xs, same);
    NubByCovers(xs, same);
  }

  /** The kept elements form a subsequence, none the same as an earlier one, covering every input. */
  lemma {:induction false} NubByCovers<T>(xs: seq<T>, same: (T, T) -> bool)
    ensures IsSubseq(NubBy(xs, same), xs)
    ensures forall i, j :: 0 <= i < j < |NubBy(xs, same)| ==>
              !same(NubBy(xs, same)[j], NubBy(xs, same)[i])
    ensures forall x :: x in xs ==>
              x in NubBy(xs, same) || exists k :: k in NubBy(xs, same) && same(x, k)
    decreases |xs|
  {
    if xs != [] {
      var init := xs[..|xs| - 1];
      var x := xs[|xs| - 1];
      var kept := NubBy(init, same);
      NubByCovers(init, same);
      assert xs == init + [x];
      if exists i :: 0 <= i < |kept| && same(x, kept[i]) {
        assert NubBy(xs, same) == kept;
        SubseqOfLonger(kept, init, x);
      } else {
        var r := kept + [x];
        assert NubBy(xs, same) == r;
        assert r[..|r| - 1] == kept;
        assert xs[..|xs| - 1] == init;
        forall i, j | 0 <= i < j < |r|
          ensures !same(r[j], r[i])
        {
          if j == |r| - 1 {
            assert r[i] == kept[i];
          } else {
            assert r[i] == kept[i] && r[j] == kept[j];
          }
        }
      }
    }
  }

  /** Adding an element to the end of `t` keeps `s` a subsequence of it. */
  lemma SubseqOfLonger<T>(s: seq<T>, t: seq<T>, x: T)
    requires IsSubseq(s, t)
    ensures IsSubseq(s, t + [x])
  {
    assert (t + [x])[..|t + [x]| - 1] == t;
  }

  /** No element of `xs` kept (at a position of `idx`) before position `i` is the same as `xs[i]`. */
  ghost predicate Fresh<T>(xs: seq<T>, same: (T, T) -> bool, idx: seq<int>, i: int)
    requires 0 <= i < |xs|
  {
    forall k :: 0 <= k < |idx| && 0 <= idx[k] < i ==> !same(xs[i], xs[idx[k]])
  }

  /**
   * `kept` is what a left-to-right pass over `xs` keeps, witnessed by the
   * strictly increasing positions `idx` it was taken from: position `i` is
   * kept exactly when no element kept before it is the same as `xs[i]`.
   */
  ghost predicate KeptAt<T>(xs: seq<T>, same: (T, T) -> bool, kept: seq<T>, idx: seq<int>) {
    && |idx| == |kept|
    && (forall k :: 0 <= k < |idx| ==> 0 <= idx[k] < |xs| && kept[k] == xs[idx[k]])
    && (forall k, l :: 0 <= k < l < |idx| ==> idx[k] < idx[l])
    && (forall i :: 0 <= i < |xs| ==> (i in idx <==> Fresh(xs, same, idx, i)))
  }

  /** Whether a position is fresh does not depend on elements after it. */
  lemma FreshPrefix<T>(xs: seq<T>, same: (T, T) -> bool, idx: seq<int>, i: int)
    requires 0 <= i < |xs| - 1
    ensures Fresh(xs, same, idx, i) <==> Fresh(xs[..|xs| - 1], same, idx, i)
  {
  }

  /** A kept position at or after `i` does not change whether `i` is fresh. */
  lemma FreshExtend<T>(xs: seq<T>, same: (T, T) -> bool, idx: seq<int>, n: int, i: int)
    requires 0 <= i < |xs| && i <= n
    ensures Fresh(xs, same, idx + [n], i) <==> Fresh(xs, same, idx, i)
  {
    assert forall k :: 0 <= k < |idx| ==> (idx + [n])[k] == idx[k];
  }

  /** `NubBy` keeps exactly the first element of every run of "same" elements, in input order. */
  lemma {:induction false} NubByFirst<T>(xs: seq<T>, same: (T, T) -> bool)
    ensures exists idx :: KeptAt(xs, same, NubBy(xs, same), idx)
    decreases |xs|
  {
    if xs == [] {
      assert KeptAt(xs, same, NubBy(xs, same), []);
    } else {
      var init := xs[..|xs| - 1];
      var x := xs[|xs| - 1];
      var kept := NubBy(init, same);
      NubByFirst(init, same);
      var idx0 :| KeptAt(init, same, kept, idx0);
      var idx := NubByNext(xs, same, kept, idx0);
      assert KeptAt(xs, same, NubBy(xs, same), idx);
    }
  }

  /** The positions kept in `xs` from those kept in all but its last element. */
  lemma NubByNext<T>(xs: seq<T>, same: (T, T) -> bool, kept: seq<T>, idx0: seq<int>) returns (idx: seq<int>)
    requires |xs| > 0 && kept == NubBy(xs[..|xs| - 1], same)
    requires KeptAt(xs[..|xs| - 1], same, kept, idx0)
    ensures KeptAt(xs, same, NubBy(xs, same), idx)
  {
    var last := |xs| - 1;
    assert xs[..|xs| - 1] == xs[..last];
    if exists j :: 0 <= j < |kept| && same(xs[last], kept[j]) {
      assert NubBy(xs, same) == kept;
      KeptSkip(xs, same, kept, idx0);
      idx := idx0;
    } else {
      assert NubBy(xs, same) == kept + [xs[last]];
      KeptKeep(xs, same, kept, idx0);
      idx := idx0 + [last];
    }
  }

  /** A last element that is the same as a kept one is dropped, and its position is not fresh. */
  lemma KeptSkip<T>(xs: seq<T>, same: (T, T) -> bool, kept: seq<T>, idx0: seq<int>)
    requires |xs| > 0 && KeptAt(xs[..|xs| - 1], same, kept, idx0)
    requires exists j :: 0 <= j < |kept| && same(xs[|xs| - 1], kept[j])
    ensures KeptAt(xs, same, kept, idx0)
  {
    var last := |xs| - 1;
    var init := xs[..last];
    var j :| 0 <= j < |kept| && same(xs[last], kept[j]);
    forall k | 0 <= k < |idx0| ensures 0 <= idx0[k] < |xs| && kept[k] == xs[idx0[k]] {
      assert init[idx0[k]] == xs[idx0[k]];
    }
    forall i | 0 <= i < |xs| ensures i in idx0 <==> Fresh(xs, same, idx0, i) {
      if i < last {
        FreshPrefix(xs, same, idx0, i);
      } else {
        assert xs[idx0[j]] == kept[j];
      }
    }
  }

  /** A last element the same as no kept one is kept, and its position is fresh. */
  lemma KeptKeep<T>(xs: seq<T>, same: (T, T) -> bool, kept: seq<T>, idx0: seq<int>)
    requires |xs| > 0 && KeptAt(xs[..|xs| - 1], same, kept, idx0)
    requires !exists j :: 0 <= j < |kept| && same(xs[|xs| - 1], kept[j])
    ensures KeptAt(xs, same, kept + [xs[|xs| - 1]], idx0 + [|xs| - 1])
  {
    var last := |xs| - 1;
    var init := xs[..last];
    var idx := idx0 + [last];
    var r := kept + [xs[last]];
    forall k | 0 <= k < |idx| ensures 0 <= idx[k] < |xs| && r[k] == xs[idx[k]] {
      if k < |idx0| {
        assert idx[k] == idx0[k] && init[idx0[k]] == xs[idx0[k]];
      }
    }
    forall k, l | 0 <= k < l < |idx| ensures idx[k] < idx[l] {
      assert idx[k] == idx0[k];
    }
    forall i | 0 <= i < |xs| ensures i in idx <==> Fresh(xs, same, idx, i) {
      FreshExtend(xs, same, idx0, last, i);
      if i < last {
        FreshPrefix(xs, same, idx0, i);
        assert i in idx <==> i in idx0;
      } else {
        assert forall k :: 0 <= k < |idx0| ==> xs[idx0[k]] == kept[k];
      }
    }
  }

  /**
   * `r` lists values of `xs` at strictly increasing positions `idx`, each at
   * its first occurrence in `xs`.
   */
  ghost predicate FirstOccurrences<T>(xs: seq<T>, r: seq<T>, idx: seq<int>) {
    && |idx| == |r|
    && (forall k :: 0 <= k < |idx| ==> 0 <= idx[k] < |xs| && r[k] == xs[idx[k]])
    && (forall k :: 0 <= k < |idx| ==> forall j :: 0 <= j < idx[k] ==> xs[j] != r[k])
    && (forall k, l :: 0 <= k < l < |idx| ==> idx[k] < idx[l])
  }

  function Dedup<T(==)>(xs: seq<T>): (r: seq<T>)
  {
    NubBy(xs, (a: T, b: T) => a == b)
  }

  /** `Dedup` keeps the first occurrence of every value, in order, and nothing twice. */
  lemma DedupSpec<T>(xs: seq<T>)
    ensures Distinct(Dedup(xs))
    ensures IsSubseq(Dedup(xs), xs)
    ensures forall x :: x in xs <==> x in Dedup(xs)
    ensures exists idx :: FirstOccurrences(xs, Dedup(xs), idx)
  {
    var same := (a: T, b: T) => a == b;
    NubByCovers(xs, same);
    SubseqMembers(Dedup(xs), xs);
    DedupFirst(xs);
  }

  /** Appending a value keeps it exactly when it is new. */
  lemma DedupSnoc<T>(xs: seq<T>, x: T)
    ensures Dedup(xs + [x]) == if x in xs then Dedup(xs) else Dedup(xs) + [x]
  {
    var same := (a: T, b: T) => a == b;
    var ys := xs + [x];
    assert ys[..|ys| - 1] == xs && ys[|ys| - 1] == x;
    var kept := NubBy(xs, same);
    assert Dedup(xs) == kept;
    DedupSpec(xs);
    assert (exists i :: 0 <= i < |kept| && same(x, kept[i])) <==> x in kept;
  }

  /** The positions `Dedup` keeps are the first occurrences of the kept values. */
  lemma DedupFirst<T>(xs: seq<T>)
    ensures exists idx :: FirstOccurrences(xs, Dedup(xs), idx)
  {
    var same := (a: T, b: T) => a == b;
    var r := Dedup(xs);
    NubByCovers(xs, same);
    NubByFirst(xs, same);
    var idx :| KeptAt(xs, same, r, idx);
    forall k, j | 0 <= k < |idx| && 0 <= j < idx[k]
      ensures xs[j] != r[k]
    {
      KeptIsFirst(xs, same, r, idx, k, j);
    }
    assert FirstOccurrences(xs, r, idx);
  }

  /**
   * Under equality, no position before a kept one holds the value kept there:
   * it was either kept itself, as an earlier, different value, or dropped as
   * equal to an earlier kept value.
   */
  lemma KeptIsFirst<T>(xs: seq<T>, same: (T, T) -> bool, r: seq<T>, idx: seq<int>, k: int, j: int)
    requires forall a, b :: same(a, b) <==> a == b
    requires KeptAt(xs, same, r, idx)
    requires forall i, l :: 0 <= i < l < |r| ==> !same(r[l], r[i])
    requires 0 <= k < |idx| && 0 <= j < idx[k]
    ensures xs[j] != r[k]
  {
    if j in idx {
      var m :| 0 <= m < |idx| && idx[m] == j;
      assert m < k;
      assert xs[j] == r[m] && !same(r[k], r[m]);
    } else {
      assert !Fresh(xs, same, idx, j);
      var m :| 0 <= m < |idx| && 0 <= idx[m] < j && same(xs[j], xs[idx[m]]);
      assert m < k;
      assert xs[j] == r[m] && !same(r[k], r[m]);
    }
  }

  /** Every element of a subsequence is an element of the sequence. */
  lemma {:induction false} SubseqMembers<T>(s: seq<T>, t: seq<T>)
    requires IsSubseq(s, t)
    ensures forall x :: x in s ==> x in t
    decreases |t|
  {
    if s != [] {
      assert t != [];
      if s[|s| - 1] == t[|t| - 1] && IsSubseq(s[..|s| - 1], t[..|t| - 1]) {
        SubseqMembers(s[..|s| - 1], t[..|t| - 1]);
        forall x | x in s ensures x in t {
          if x != s[|s| - 1] {
            assert s == s[..|s| - 1] + [s[|s| - 1]];
            assert x in s[..|s| - 1];
            assert x in t[..|t| - 1];
          }
        }
      } else {
        SubseqMembers(s, t[..|t| - 1]);
        forall x | x in s ensures x in t {
          assert x in t[..|t| - 1];
        }
      }
    }
  }
}
