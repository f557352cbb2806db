/** Array filtering as JavaScript's `Array.prototype.filter` does it: order kept, elements untouched. */
module Sequences {

  /** The indices of the elements of `s` that satisfy `p`, in increasing order. */
  function Positions<T>(s: seq<T>, p: T -> bool): (ix: seq<nat>)
    ensures forall k :: 0 <= k < |ix| ==> ix[k] < |s| && p(s[ix[k]])
    ensures forall k, l :: 0 <= k < l < |ix| ==> ix[k] < ix[l]
    decreases |s|
  {
    if s == [] then []
    else
      var n := |s| - 1;
      var prefix := Positions(s[..n], p);
      assert forall k :: 0 <= k < |prefix| ==> s[..n][prefix[k]] == s[prefix[k]];
      prefix + (if p(s[n]) then [n] else [])
  }

  /** No element that passes the test is missed. */
  lemma {:induction false} PositionsComplete<T>(s: seq<T>, p: T -> bool)
    ensures forall j :: 0 <= j < |s| && p(s[j]) ==> j in Positions(s, p)
    decreases |s|
  {
    if s != [] {
      var n := |s| - 1;
      var prefix, tail := Positions(s[..n], p), if p(s[n]) then [n] else [];
      PositionsComplete(s[..n], p);
      assert Positions(s, p) == prefix + tail;
      forall j | 0 <= j < |s| && p(s[j])
        ensures j in prefix + tail
      {
        if j < n {
          assert s[..n][j] == s[j];
          assert j in prefix;
        } else {
          assert j in tail;
        }
      }
    }
  }

  /** The elements of `s` that satisfy `p`: exactly those at `Positions(s, p)`, in that order. */
  function Filter<T>(s: seq<T>, p: T -> bool): (r: seq<T>)
    ensures |r| == |Positions(s, p)|
    ensures forall k :: 0 <= k < |r| ==> r[k] == s[Positions(s, p)[k]]
    decreases |s|
  {
    if s == [] then []
    else
      var n := |s| - 1;
      var prefix := Filter(s[..n], p);
      assert forall k :: 0 <= k < |prefix| ==> prefix[k] == s[Positions(s[..n], p)[k]];
      prefix + (if p(s[n]) then [s[n]] else [])
  }

  /** A filtered sequence is empty exactly when no element passes the test. */
  lemma FilterEmpty<T>(s: seq<T>, p: T -> bool)
    ensures |Filter(s, p)| == 0 <==> forall j :: 0 <= j < |s| ==> !p(s[j])
  {
    if exists j :: 0 <= j < |s| && p(s[j]) {
      var j :| 0 <= j < |s| && p(s[j]);
      PositionsComplete(s, p);
      assert j in Positions(s, p);
    }
  }

  /** The first element that passes the test is the first element of the filtered sequence. */
  lemma FilterFirst<T>(s: seq<T>, p: T -> bool)
    requires |Filter(s, p)| > 0
    ensures var i := Positions(s, p)[0];
      i < |s| && Filter(s, p)[0] == s[i] && p(s[i]) && forall j :: 0 <= j < i ==> !p(s[j])
  {
    PositionsComplete(s, p);
  }

  /** Filtering distributes over concatenation. */
  lemma {:induction false} FilterAppend<T>(a: seq<T>, b: seq<T>, p: T -> bool)
    ensures Filter(a + b, p) == Filter(a, p) + Filter(b, p)
    decreases |b|
  {
    if b != [] {
      var n := |b| - 1;
      FilterAppend(a, b[..n], p);
      assert (a + b)[..|a| + n] == a + b[..n];
      assert (a + b)[|a| + n] == b[n];
    } else {
      assert a + b == a;
    }
  }
}
