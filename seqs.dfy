/** Sequence helpers shared by the loader's filters: Python's `filter`, index embeddings, dict key order. */
module Seqs {

  /** Strictly increasing integer sequence (a list of row or column positions in order). */
  ghost predicate Increasing(idx: seq<int>)
  {
    forall a, b :: 0 <= a < b < |idx| ==> idx[a] < idx[b]
  }

  /** Python's `list(filter(keep, s))`: the elements of `s` that `keep` accepts, in their order. */
  function Filter<T(!new)>(s: seq<T>, keep: T -> bool): (r: seq<T>)
    ensures |r| <= |s|
    ensures forall x :: x in r <==> x in s && keep(x)
  {
    if s == [] then []
    else (if keep(s[0]) then [s[0]] else []) + Filter(s[1..], keep)
  }

  /** Filtering one more element at the end extends the result by at most that element. */
  lemma {:induction false} FilterAppend<T(!new)>(s: seq<T>, x: T, keep: T -> bool)
    ensures Filter(s + [x], keep) == Filter(s, keep) + (if keep(x) then [x] else [])
  {
    if s == [] {
      assert [x][1..] == [];
    } else {
      assert (s + [x])[1..] == s[1..] + [x];
      FilterAppend(s[1..], x, keep);
    }
  }

  /** `FilterAppend` read from a non-empty sequence: its last element extends the filter of the rest. */
  lemma FilterLast<T(!new)>(s: seq<T>, keep: T -> bool)
    requires s != []
    ensures Filter(s, keep) == Filter(s[..|s| - 1], keep) + (if keep(s[|s| - 1]) then [s[|s| - 1]] else [])
  {
    var pre, x := s[..|s| - 1], s[|s| - 1];
    FilterAppend(pre, x, keep);
    assert pre + [x] == s;
  }

  /** Two predicates that agree on every element of `s` filter it identically. */
  lemma {:induction false} FilterCongruent<T(!new)>(s: seq<T>, p: T -> bool, q: T -> bool)
    requires forall k :: 0 <= k < |s| ==> p(s[k]) == q(s[k])
    ensures Filter(s, p) == Filter(s, q)
  {
    if s != [] {
      assert forall k :: 0 <= k < |s[1..]| ==> s[1..][k] == s[k + 1];
      FilterCongruent(s[1..], p, q);
    }
  }

  /** Every position moved one place to the right. */
  function Shift(idx: seq<int>): (r: seq<int>)
    ensures |r| == |idx|
    ensures forall k :: 0 <= k < |r| ==> r[k] == idx[k] + 1
  {
    if idx == [] then [] else [idx[0] + 1] + Shift(idx[1..])
  }

  lemma ShiftMembers(idx: seq<int>, p: int)
    ensures p in Shift(idx) <==> p - 1 in idx
  {
    if p in Shift(idx) {
      var k :| 0 <= k < |idx| && Shift(idx)[k] == p;
      assert idx[k] == p - 1;
    }
    if p - 1 in idx {
      var k :| 0 <= k < |idx| && idx[k] == p - 1;
      assert Shift(idx)[k] == p;
    }
  }

  /** The positions of `s` whose element `keep` accepts, in increasing order. */
  function Positions<T>(s: seq<T>, keep: T -> bool): (idx: seq<int>)
    ensures forall k :: 0 <= k < |idx| ==> 0 <= idx[k] < |s|
  {
    if s == [] then []
    else (if keep(s[0]) then [0] else []) + Shift(Positions(s[1..], keep))
  }

  lemma {:induction false} PositionsIncreasing<T>(s: seq<T>, keep: T -> bool)
    ensures Increasing(Positions(s, keep))
  {
    if s != [] {
      PositionsIncreasing(s[1..], keep);
      var shifted := Shift(Positions(s[1..], keep));
      assert Increasing(shifted);
      assert forall k :: 0 <= k < |shifted| ==> shifted[k] >= 1;
    }
  }

  lemma {:induction false} PositionsSelect<T(!new)>(s: seq<T>, keep: T -> bool)
    ensures |Positions(s, keep)| == |Filter(s, keep)|
    ensures forall k :: 0 <= k < |Filter(s, keep)| ==> Filter(s, keep)[k] == s[Positions(s, keep)[k]]
  {
    if s != [] {
      PositionsSelect(s[1..], keep);
      var tail := Positions(s[1..], keep);
      var rest := Filter(s[1..], keep);
      forall k | 0 <= k < |rest|
        ensures rest[k] == s[Shift(tail)[k]]
      {
        assert s[1..][tail[k]] == s[tail[k] + 1];
      }
    }
  }

  lemma {:induction false} PositionsMembers<T>(s: seq<T>, keep: T -> bool, p: int)
    requires 0 <= p < |s|
    ensures keep(s[p]) <==> p in Positions(s, keep)
  {
    var tail := Positions(s[1..], keep);
    ShiftMembers(tail, p);
    if p > 0 {
      PositionsMembers(s[1..], keep, p - 1);
      assert s[p] == s[1..][p - 1];
    } else {
      ShiftMembers(tail, 0);
      assert -1 !in tail;
    }
  }

  /**
   * The filtered sequence is the subsequence of `s` at the positions `idx`, which are
   * increasing and are exactly the positions whose element `keep` accepts.
   */
  lemma FilterPositions<T(!new)>(s: seq<T>, keep: T -> bool) returns (idx: seq<int>)
    ensures |idx| == |Filter(s, keep)|
    ensures Increasing(idx)
    ensures forall k :: 0 <= k < |idx| ==> 0 <= idx[k] < |s| && Filter(s, keep)[k] == s[idx[k]]
    ensures forall p :: 0 <= p < |s| ==> (keep(s[p]) <==> p in idx)
  {
    idx := Positions(s, keep);
    PositionsIncreasing(s, keep);
    PositionsSelect(s, keep);
    forall p | 0 <= p < |s|
      ensures keep(s[p]) <==> p in idx
    {
      PositionsMembers(s, keep, p);
    }
  }

  /** The keys of `s` without repeats, each where it first occurs: the iteration order of a Python dict. */
  function Distinct<T(==,!new)>(s: seq<T>): (r: seq<T>)
    ensures forall x :: x in r <==> x in s
    ensures forall a, b :: 0 <= a < b < |r| ==> r[a] != r[b]
  {
    if s == [] then []
    else
      var d := Distinct(s[..|s| - 1]);
      var x := s[|s| - 1];
      assert s == s[..|s| - 1] + [x];
      if x in d then d else d + [x]
  }
}
