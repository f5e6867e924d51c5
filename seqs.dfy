/** Order-preserving filtering of sequences, the model of `Array.prototype.filter`. */
module Seqs {

  /** The elements of `s` that satisfy `p`, in their original order. */
  function Select<T>(s: seq<T>, p: T -> bool): (r: seq<T>)
    ensures |r| <= |s|
    ensures forall k :: 0 <= k < |r| ==> p(r[k])
    decreases |s|
  {
    if s == [] then []
    else
      var init := Select(s[..|s| - 1], p);
      if p(s[|s| - 1]) then init + [s[|s| - 1]] else init
  }

  /** `idx` lists, in strictly increasing order, positions of `s` that spell out `r`. */
  ghost predicate Embeds<T>(r: seq<T>, s: seq<T>, idx: seq<nat>) {
    && |idx| == |r|
    && (forall k :: 0 <= k < |idx| ==> idx[k] < |s| && s[idx[k]] == r[k])
    && (forall k, l :: 0 <= k < l < |idx| ==> idx[k] < idx[l])
  }

  /** `r` is obtained from `s` by deleting elements, keeping the order of the rest. */
  ghost predicate IsSubsequence<T>(r: seq<T>, s: seq<T>) {
    exists idx :: Embeds(r, s, idx)
  }

  /** The positions of `s` that `Select(s, p)` keeps. */
  ghost function SelectedPositions<T>(s: seq<T>, p: T -> bool): seq<nat>
    decreases |s|
  {
    if s == [] then []
    else
      var init := SelectedPositions(s[..|s| - 1], p);
      if p(s[|s| - 1]) then init + [|s| - 1] else init
  }

  lemma {:induction false} SelectEmbeds<T>(s: seq<T>, p: T -> bool)
    ensures Embeds(Select(s, p), s, SelectedPositions(s, p))
    decreases |s|
  {
    if s != [] {
      var init := s[..|s| - 1];
      SelectEmbeds(init, p);
      var idx := SelectedPositions(init, p);
      assert forall k :: 0 <= k < |idx| ==> idx[k] < |init| && s[idx[k]] == init[idx[k]];
    }
  }

  /** Filtering keeps the survivors in their original order. */
  lemma SelectIsSubsequence<T>(s: seq<T>, p: T -> bool)
    ensures IsSubsequence(Select(s, p), s)
  {
    SelectEmbeds(s, p);
  }

  /** An element survives the filter exactly when it occurs in `s` and satisfies `p`. */
  lemma {:induction false} SelectMembers<T>(s: seq<T>, p: T -> bool, x: T)
    ensures x in Select(s, p) <==> x in s && p(x)
    decreases |s|
  {
    if s != [] {
      var init := s[..|s| - 1];
      SelectMembers(init, p, x);
      assert s == init + [s[|s| - 1]];
    }
  }

  /** When every element satisfies `p`, the filter returns its input unchanged. */
  lemma {:induction false} SelectKeepsAll<T>(s: seq<T>, p: T -> bool)
    requires forall k :: 0 <= k < |s| ==> p(s[k])
    ensures Select(s, p) == s
    decreases |s|
  {
    if s != [] {
      SelectKeepsAll(s[..|s| - 1], p);
      assert s == s[..|s| - 1] + [s[|s| - 1]];
    }
  }

  /** Filtering keeps every copy of a passing element and no copy of a failing one. */
  lemma {:induction false} SelectCount<T>(s: seq<T>, p: T -> bool, x: T)
    ensures multiset(Select(s, p))[x] == if p(x) then multiset(s)[x] else 0
    decreases |s|
  {
    if s != [] {
      var init := s[..|s| - 1];
      SelectCount(init, p, x);
      assert s == init + [s[|s| - 1]];
    }
  }

  /** Filtering a sequence that starts with `x`: `x` survives first if it passes. */
  lemma SelectCons<T>(x: T, s: seq<T>, p: T -> bool)
    ensures Select([x] + s, p) == (if p(x) then [x] else []) + Select(s, p)
  {
    SelectAppend([x], s, p);
    assert [x][..0] == [];
  }

  /** Filtering commutes with concatenation, so the survivors of `a` precede those of `b`. */
  lemma {:induction false} SelectAppend<T>(a: seq<T>, b: seq<T>, p: T -> bool)
    ensures Select(a + b, p) == Select(a, p) + Select(b, p)
    decreases |b|
  {
    if b == [] {
      assert a + b == a;
    } else {
      var init := b[..|b| - 1];
      SelectAppend(a, init, p);
      assert (a + b)[..|a + b| - 1] == a + init;
    }
  }

  /** The pieces `f(x)` of the elements of `s`, concatenated in the order of `s`. */
  function FlatMap<T, U>(s: seq<T>, f: T -> seq<U>): seq<U>
    decreases |s|
  {
    if s == [] then [] else FlatMap(s[..|s| - 1], f) + f(s[|s| - 1])
  }

  /** Flattening commutes with concatenation: the pieces of `a` precede those of `b`. */
  lemma {:induction false} FlatMapAppend<T, U>(a: seq<T>, b: seq<T>, f: T -> seq<U>)
    ensures FlatMap(a + b, f) == FlatMap(a, f) + FlatMap(b, f)
    decreases |b|
  {
    if b == [] {
      assert a + b == a;
    } else {
      var init := b[..|b| - 1];
      FlatMapAppend(a, init, f);
      assert (a + b)[..|a + b| - 1] == a + init;
    }
  }

  /** Pieces of at most one element give at most one element per input. */
  lemma {:induction false} FlatMapShort<T, U>(s: seq<T>, f: T -> seq<U>)
    requires forall x :: |f(x)| <= 1
    ensures |FlatMap(s, f)| <= |s|
    decreases |s|
  {
    if s != [] {
      FlatMapShort(s[..|s| - 1], f);
    }
  }

  /** Appending to the longer sequence keeps a subsequence a subsequence. */
  lemma SubsequenceSkip<T>(r: seq<T>, s: seq<T>, x: T)
    requires IsSubsequence(r, s)
    ensures IsSubsequence(r, s + [x])
  {
    var idx: seq<nat> :| Embeds(r, s, idx);
    assert forall k :: 0 <= k < |idx| ==> (s + [x])[idx[k]] == s[idx[k]];
    assert Embeds(r, s + [x], idx);
  }

  /** Appending the same element to both keeps a subsequence a subsequence. */
  lemma SubsequenceTake<T>(r: seq<T>, s: seq<T>, x: T)
    requires IsSubsequence(r, s)
    ensures IsSubsequence(r + [x], s + [x])
  {
    var idx: seq<nat> :| Embeds(r, s, idx);
    var idx' := idx + [|s|];
    assert forall k :: 0 <= k < |idx| ==> (s + [x])[idx'[k]] == s[idx[k]];
    assert Embeds(r + [x], s + [x], idx');
  }

  /** The elements of `s` without repeats, each at its first occurrence
      (`[...new Set(s)]`). */
  function Distinct<T(==)>(s: seq<T>): (r: seq<T>)
    decreases |s|
  {
    if s == [] then []
    else
      var init := Distinct(s[..|s| - 1]);
      if s[|s| - 1] in init then init else init + [s[|s| - 1]]
  }

  /** No element repeats. */
  ghost predicate NoRepeats<T>(s: seq<T>) {
    forall i, j :: 0 <= i < j < |s| ==> s[i] != s[j]
  }

  /** `Distinct` keeps its elements in the order of `s`: each at its first occurrence. */
  lemma {:induction false} DistinctIsSubsequence<T>(s: seq<T>)
    ensures IsSubsequence(Distinct(s), s)
    decreases |s|
  {
    if s == [] {
      assert Embeds([], s, []);
    } else {
      var init := s[..|s| - 1];
      DistinctIsSubsequence(init);
      assert s == init + [s[|s| - 1]];
      if s[|s| - 1] in Distinct(init) {
        SubsequenceSkip(Distinct(init), init, s[|s| - 1]);
      } else {
        SubsequenceTake(Distinct(init), init, s[|s| - 1]);
      }
    }
  }

  /** `Distinct` has no repeats and holds exactly the elements of its input. */
  lemma {:induction false} DistinctSpec<T>(s: seq<T>)
    ensures NoRepeats(Distinct(s))
    ensures forall x :: x in Distinct(s) <==> x in s
    decreases |s|
  {
    if s != [] {
      var init := s[..|s| - 1];
      DistinctSpec(init);
      assert s == init + [s[|s| - 1]];
    }
  }
}
