/** Order-preserving filtering of sequences, and where the kept elements came from. */
module Seqs {

  /** The elements of s that satisfy keep, in their original order (LINQ Where). */
  function Filter<T(==)>(s: seq<T>, keep: T -> bool): (r: seq<T>)
    ensures |r| <= |s|
    ensures forall i :: 0 <= i < |r| ==> keep(r[i])
  {
    if s == [] then [] else (if keep(s[0]) then [s[0]] else []) + Filter(s[1..], keep)
  }

  /** Filter keeps exactly the accepted elements. */
  lemma {:induction false} FilterMembership<T>(s: seq<T>, keep: T -> bool, x: T)
    ensures x in Filter(s, keep) <==> x in s && keep(x)
  {
    if s != [] {
      FilterMembership(s[1..], keep, x);
      assert x in s <==> x == s[0] || x in s[1..];
    }
  }

  function Shift(idx: seq<nat>): (r: seq<nat>)
    ensures |r| == |idx| && forall k :: 0 <= k < |idx| ==> r[k] == idx[k] + 1
  {
    seq(|idx|, k requires 0 <= k < |idx| => idx[k] + 1)
  }

  /** The positions in s of the elements keep accepts, ascending. */
  function KeptIndices<T>(s: seq<T>, keep: T -> bool): (idx: seq<nat>)
    ensures |idx| <= |s| && forall k :: 0 <= k < |idx| ==> idx[k] < |s|
  {
    if s == [] then [] else (if keep(s[0]) then [0] else []) + Shift(KeptIndices(s[1..], keep))
  }

  /** KeptIndices lists accepted positions only. */
  lemma {:induction false} KeptIndicesAccepted<T>(s: seq<T>, keep: T -> bool)
    ensures forall k :: 0 <= k < |KeptIndices(s, keep)| ==> keep(s[KeptIndices(s, keep)[k]])
  {
    if s != [] {
      var rest := KeptIndices(s[1..], keep);
      KeptIndicesAccepted(s[1..], keep);
      var idx := KeptIndices(s, keep);
      var h: seq<nat> := if keep(s[0]) then [0] else [];
      assert idx == h + Shift(rest);
      forall k | 0 <= k < |idx|
        ensures keep(s[idx[k]])
      {
        if k >= |h| {
          assert idx[k] == rest[k - |h|] + 1;
          assert s[idx[k]] == s[1..][rest[k - |h|]];
        }
      }
    }
  }

  /** KeptIndices is strictly ascending. */
  lemma {:induction false} KeptIndicesAscending<T>(s: seq<T>, keep: T -> bool)
    ensures forall k, l :: 0 <= k < l < |KeptIndices(s, keep)| ==> KeptIndices(s, keep)[k] < KeptIndices(s, keep)[l]
  {
    if s != [] {
      var rest := KeptIndices(s[1..], keep);
      KeptIndicesAscending(s[1..], keep);
      var idx := KeptIndices(s, keep);
      var h: seq<nat> := if keep(s[0]) then [0] else [];
      assert idx == h + Shift(rest);
      forall k, l | 0 <= k < l < |idx|
        ensures idx[k] < idx[l]
      {
        assert idx[l] == rest[l - |h|] + 1;
        if k >= |h| {
          assert idx[k] == rest[k - |h|] + 1;
        }
      }
    }
  }

  /** KeptIndices misses no accepted position. */
  lemma {:induction false} KeptIndicesComplete<T>(s: seq<T>, keep: T -> bool)
    ensures forall i :: 0 <= i < |s| && keep(s[i]) ==> i in KeptIndices(s, keep)
  {
    if s != [] {
      var rest := KeptIndices(s[1..], keep);
      KeptIndicesComplete(s[1..], keep);
      var idx := KeptIndices(s, keep);
      var h: seq<nat> := if keep(s[0]) then [0] else [];
      assert idx == h + Shift(rest);
      forall i | 0 <= i < |s| && keep(s[i])
        ensures i in idx
      {
        if i == 0 {
          assert idx[0] == 0;
        } else {
          assert s[1..][i - 1] == s[i];
          var k :| 0 <= k < |rest| && rest[k] == i - 1;
          assert idx[|h| + k] == i;
        }
      }
    }
  }

  /** The k-th kept element is the element at the k-th kept position: Filter
      keeps exactly the accepted elements, in the order of s. */
  lemma {:induction false} FilterAt<T>(s: seq<T>, keep: T -> bool)
    ensures |Filter(s, keep)| == |KeptIndices(s, keep)|
    ensures forall k :: 0 <= k < |Filter(s, keep)| ==> Filter(s, keep)[k] == s[KeptIndices(s, keep)[k]]
  {
    if s != [] {
      FilterAt(s[1..], keep);
      var f, rest := Filter(s[1..], keep), KeptIndices(s[1..], keep);
      var h: seq<nat> := if keep(s[0]) then [0] else [];
      assert KeptIndices(s, keep) == h + Shift(rest);
      assert Filter(s, keep) == (if keep(s[0]) then [s[0]] else []) + f;
      forall k | 0 <= k < |Filter(s, keep)|
        ensures Filter(s, keep)[k] == s[KeptIndices(s, keep)[k]]
      {
        if k >= |h| {
          assert Filter(s, keep)[k] == f[k - |h|] == s[1..][rest[k - |h|]];
        }
      }
    }
  }

  /** Filtering two runs is filtering each, the first run's elements first. */
  lemma {:induction false} FilterAppend<T>(a: seq<T>, b: seq<T>, keep: T -> bool)
    ensures Filter(a + b, keep) == Filter(a, keep) + Filter(b, keep)
  {
    if a != [] {
      assert (a + b)[0] == a[0];
      assert (a + b)[1..] == a[1..] + b;
      FilterAppend(a[1..], b, keep);
    } else {
      assert a + b == b;
    }
  }

  /** No element occurs twice. */
  predicate Distinct<T(==)>(s: seq<T>) {
    forall i, j :: 0 <= i < j < |s| ==> s[i] != s[j]
  }

  /** A sequence holds at most as many different values as it has positions. */
  lemma {:induction false} ValuesBound<T>(s: seq<T>)
    ensures |set x | x in s| <= |s|
  {
    if s != [] {
      ValuesBound(s[1..]);
      assert (set x | x in s) == (set x | x in s[1..]) + {s[0]};
    }
  }
}
