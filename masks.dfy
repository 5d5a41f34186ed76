/** Boolean-mask row selection, the way pandas evaluates `df[mask]`: the rows
    whose mask entry is true, in their original order. `Kept` names the
    surviving positions, so that "order preserving" and "nothing wrongly
    dropped" can be stated exactly. */
module Masks {

  /** The positions of the true entries of `mask`, ascending. */
  function Kept(mask: seq<bool>): (idx: seq<nat>)
    ensures forall j :: 0 <= j < |idx| ==> idx[j] < |mask| && mask[idx[j]]
    ensures forall j, k :: 0 <= j < k < |idx| ==> idx[j] < idx[k]
    ensures forall i :: 0 <= i < |mask| && mask[i] ==> i in idx
  {
    if mask == [] then []
    else
      var n := |mask| - 1;
      var front := Kept(mask[..n]);
      assert forall j :: 0 <= j < |front| ==> front[j] < n && mask[front[j]];
      front + (if mask[n] then [n] else [])
  }

  /** `s[mask]`: the elements at the true positions of `mask`. */
  function Select<T>(s: seq<T>, mask: seq<bool>): (r: seq<T>)
    requires |mask| == |s|
    ensures |r| == |Kept(mask)|
    ensures forall j :: 0 <= j < |r| ==> r[j] == s[Kept(mask)[j]]
  {
    if s == [] then []
    else
      var n := |s| - 1;
      assert Kept(mask) == Kept(mask[..n]) + (if mask[n] then [n] else []);
      Select(s[..n], mask[..n]) + (if mask[n] then [s[n]] else [])
  }

  /** The mask `p(s[i])` for each position `i`. */
  function MaskOf<T>(s: seq<T>, p: T -> bool): (mask: seq<bool>)
    ensures |mask| == |s| && forall i :: 0 <= i < |s| ==> mask[i] == p(s[i])
  {
    seq(|s|, i requires 0 <= i < |s| => p(s[i]))
  }

  /** `s[p(s)]`: the elements satisfying `p`, in order. */
  function Filter<T>(s: seq<T>, p: T -> bool): seq<T> {
    Select(s, MaskOf(s, p))
  }

  /** Filtering keeps exactly the elements satisfying `p`, and in their
      original order: the result is `s` read at the ascending positions
      `Kept`, which are exactly the positions where `p` holds. */
  lemma FilterSpec<T>(s: seq<T>, p: T -> bool)
    ensures var idx := Kept(MaskOf(s, p));
      && |Filter(s, p)| == |idx|
      && (forall j :: 0 <= j < |idx| ==> idx[j] < |s| && Filter(s, p)[j] == s[idx[j]] && p(s[idx[j]]))
      && (forall j, k :: 0 <= j < k < |idx| ==> idx[j] < idx[k])
      && (forall i :: 0 <= i < |s| ==> (p(s[i]) <==> i in idx))
  {
  }

  /** Membership form of `FilterSpec`. */
  lemma FilterMembers<T>(s: seq<T>, p: T -> bool)
    ensures forall x :: x in Filter(s, p) <==> x in s && p(x)
  {
    var idx := Kept(MaskOf(s, p));
    var r := Filter(s, p);
    forall x | x in s && p(x) ensures x in r {
      var i :| 0 <= i < |s| && s[i] == x;
      var j :| 0 <= j < |idx| && idx[j] == i;
      assert r[j] == x;
    }
    forall x | x in r ensures x in s && p(x) {
      var j :| 0 <= j < |r| && r[j] == x;
      assert x == s[idx[j]];
    }
  }

  /** Two successive filters are one filter on the conjunction. */
  lemma {:induction false} FilterTwice<T>(s: seq<T>, p: T -> bool, q: T -> bool, pq: T -> bool)
    requires forall x :: pq(x) == (p(x) && q(x))
    ensures Filter(Filter(s, p), q) == Filter(s, pq)
  {
    if s != [] {
      var n := |s| - 1;
      FilterTwice(s[..n], p, q, pq);
      SnocFilter(s, p);
      SnocFilter(s, pq);
      var front := Filter(s[..n], p);
      if p(s[n]) {
        SnocFilter(front + [s[n]], q);
        assert (front + [s[n]])[..|front|] == front;
      } else {
        assert Filter(s, p) == front;
      }
    }
  }

  /** Filtering a sequence with one more element at the end. */
  lemma SnocFilter<T>(s: seq<T>, p: T -> bool)
    requires s != []
    ensures Filter(s, p) == Filter(s[..|s| - 1], p) + (if p(s[|s| - 1]) then [s[|s| - 1]] else [])
  {
    var n := |s| - 1;
    assert MaskOf(s, p)[..n] == MaskOf(s[..n], p);
  }
}
