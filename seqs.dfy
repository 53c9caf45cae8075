/** Sequence operations the models share: filtering by a mask, reversal,
    integer ranges and insertion at a position. */
module Seqs {

  /** The elements of s whose flag in keep is set, in order. */
  function Select<T>(s: seq<T>, keep: seq<bool>): seq<T>
    requires |keep| == |s|
  {
    if s == [] then [] else (if keep[0] then [s[0]] else []) + Select(s[1..], keep[1..])
  }

  lemma {:induction false} SelectSnoc<T>(s: seq<T>, keep: seq<bool>, x: T, b: bool)
    requires |keep| == |s|
    ensures Select(s + [x], keep + [b]) == Select(s, keep) + (if b then [x] else [])
    decreases |s|
  {
    if s == [] {
      assert s + [x] == [x] && keep + [b] == [b];
    } else {
      assert (s + [x])[1..] == s[1..] + [x];
      assert (keep + [b])[1..] == keep[1..] + [b];
      SelectSnoc(s[1..], keep[1..], x, b);
      var head := if keep[0] then [s[0]] else [];
      assert Select(s + [x], keep + [b]) == head + Select(s[1..] + [x], keep[1..] + [b]);
      assert head + (Select(s[1..], keep[1..]) + (if b then [x] else [])) == Select(s, keep) + (if b then [x] else []);
    }
  }

  function Reverse<T>(s: seq<T>): (r: seq<T>)
    ensures |r| == |s| && forall i :: 0 <= i < |s| ==> r[i] == s[|s| - 1 - i]
  {
    if s == [] then [] else Reverse(s[1..]) + [s[0]]
  }

  lemma ReverseReverse<T>(s: seq<T>)
    ensures Reverse(Reverse(s)) == s
  {
    var r := Reverse(Reverse(s));
    forall i | 0 <= i < |s| ensures r[i] == s[i] {
      assert Reverse(s)[|s| - 1 - i] == s[i];
    }
  }

  /** lo, lo + 1, ..., hi - 1. */
  function Range(lo: nat, hi: nat): (r: seq<nat>)
    ensures |r| == if lo <= hi then hi - lo else 0
    decreases hi - lo
  {
    if lo >= hi then [] else [lo] + Range(lo + 1, hi)
  }

  lemma {:induction false} RangeIndex(lo: nat, hi: nat)
    ensures forall i :: 0 <= i < |Range(lo, hi)| ==> Range(lo, hi)[i] == lo + i
    decreases hi - lo
  {
    if lo < hi {
      RangeIndex(lo + 1, hi);
    }
  }

  lemma {:induction false} RangeSnoc(lo: nat, hi: nat)
    requires lo <= hi
    ensures Range(lo, hi + 1) == Range(lo, hi) + [hi]
    decreases hi - lo
  {
    if lo < hi {
      RangeSnoc(lo + 1, hi);
    }
  }

  lemma RangeCons(lo: nat, hi: nat)
    requires lo < hi
    ensures Range(lo, hi) == [lo] + Range(lo + 1, hi)
  {
  }

  /** s with x inserted so that it lands at index i. */
  function InsertAt<T>(s: seq<T>, i: nat, x: T): (r: seq<T>)
    requires i <= |s|
    ensures |r| == |s| + 1 && r[i] == x && r[..i] == s[..i] && r[i + 1..] == s[i..]
  {
    s[..i] + [x] + s[i..]
  }

  lemma InsertAtKeeps<T>(s: seq<T>, i: nat, x: T)
    requires i <= |s|
    ensures x in InsertAt(s, i, x)
    ensures forall y :: y in s ==> y in InsertAt(s, i, x)
  {
    assert s == s[..i] + s[i..];
  }

  /** The positions i in [lo, hi) with mask[i] == want, ascending. */
  function Positions(mask: seq<bool>, want: bool, lo: nat, hi: nat): seq<nat>
    requires hi <= |mask|
    decreases hi - lo
  {
    if lo >= hi then [] else (if mask[lo] == want then [lo] else []) + Positions(mask, want, lo + 1, hi)
  }

  lemma {:induction false} PositionsSpec(mask: seq<bool>, want: bool, lo: nat, hi: nat)
    requires hi <= |mask|
    ensures forall i :: i in Positions(mask, want, lo, hi) <==> lo <= i < hi && mask[i] == want
    ensures forall a, b :: 0 <= a < b < |Positions(mask, want, lo, hi)| ==>
              Positions(mask, want, lo, hi)[a] < Positions(mask, want, lo, hi)[b]
    ensures forall a :: 0 <= a < |Positions(mask, want, lo, hi)| ==> lo <= Positions(mask, want, lo, hi)[a]
    decreases hi - lo
  {
    if lo < hi {
      PositionsSpec(mask, want, lo + 1, hi);
    }
  }

  lemma PositionsCons(mask: seq<bool>, want: bool, lo: nat, hi: nat)
    requires lo < hi <= |mask|
    ensures Positions(mask, want, lo, hi) == (if mask[lo] == want then [lo] else []) + Positions(mask, want, lo + 1, hi)
  {
  }

  /** Moving past a position where the mask holds: it joins the range below,
      and leaves the list of positions where the mask holds. */
  lemma PassthroughStep(mask: seq<bool>, t: nat)
    requires t < |mask| && mask[t]
    ensures Range(0, t) + [t] + Positions(mask, false, t, |mask|) == Range(0, t + 1) + Positions(mask, false, t + 1, |mask|)
    ensures Positions(mask, true, t, |mask|) == [t] + Positions(mask, true, t + 1, |mask|)
  {
    PositionsCons(mask, false, t, |mask|);
    PositionsCons(mask, true, t, |mask|);
    RangeSnoc(0, t);
  }

  /** Moving past a position where the mask does not hold: it moves from the
      list of positions where the mask fails into the range below. */
  lemma RenderedStep(mask: seq<bool>, t: nat)
    requires t < |mask| && !mask[t]
    ensures Range(0, t) + Positions(mask, false, t, |mask|) == Range(0, t + 1) + Positions(mask, false, t + 1, |mask|)
    ensures Positions(mask, true, t, |mask|) == Positions(mask, true, t + 1, |mask|)
  {
    PositionsCons(mask, false, t, |mask|);
    PositionsCons(mask, true, t, |mask|);
    RangeSnoc(0, t);
    assert Range(0, t) + ([t] + Positions(mask, false, t + 1, |mask|)) == Range(0, t + 1) + Positions(mask, false, t + 1, |mask|);
  }

  /** Every position in [lo, hi) is in exactly one of the two lists. */
  lemma {:induction false} PositionsCount(mask: seq<bool>, lo: nat, hi: nat)
    requires lo <= hi <= |mask|
    ensures |Positions(mask, false, lo, hi)| + |Positions(mask, true, lo, hi)| == hi - lo
    decreases hi - lo
  {
    if lo < hi {
      PositionsCount(mask, lo + 1, hi);
      PositionsCons(mask, false, lo, hi);
      PositionsCons(mask, true, lo, hi);
    }
  }

  lemma {:induction false} PositionsSnoc(mask: seq<bool>, want: bool, lo: nat, hi: nat)
    requires lo <= hi < |mask|
    ensures Positions(mask, want, lo, hi + 1) == Positions(mask, want, lo, hi) + (if mask[hi] == want then [hi] else [])
    decreases hi - lo
  {
    if lo < hi {
      PositionsSnoc(mask, want, lo + 1, hi);
    }
  }

  /** When inner implies outer, the positions where outer holds but inner does
      not, together with those where inner holds, are as many as where outer holds. */
  lemma {:induction false} PositionsNestedCount(outer: seq<bool>, inner: seq<bool>, rest: seq<bool>, lo: nat, hi: nat)
    requires lo <= hi <= |outer| == |inner| == |rest|
    requires forall i :: lo <= i < hi ==> (inner[i] ==> outer[i]) && rest[i] == (outer[i] && !inner[i])
    ensures |Positions(rest, true, lo, hi)| + |Positions(inner, true, lo, hi)| == |Positions(outer, true, lo, hi)|
    decreases hi - lo
  {
    if lo < hi {
      PositionsNestedCount(outer, inner, rest, lo + 1, hi);
      PositionsCons(outer, true, lo, hi);
      PositionsCons(inner, true, lo, hi);
      PositionsCons(rest, true, lo, hi);
    }
  }

  predicate Increasing(s: seq<nat>)
  {
    forall a, b :: 0 <= a < b < |s| ==> s[a] < s[b]
  }

  lemma SameElementsEmpty<T>(x: seq<T>, y: seq<T>)
    requires forall v :: v in x <==> v in y
    ensures x == [] <==> y == []
  {
    if x != [] {
      assert x[0] in x;
    }
    if y != [] {
      assert y[0] in y;
    }
  }

  lemma IncreasingHeadLeast(s: seq<nat>, v: nat)
    requires Increasing(s) && v in s
    ensures s[0] <= v
    ensures v != s[0] ==> v in s[1..]
  {
    var i :| 0 <= i < |s| && s[i] == v;
    if i > 0 {
      assert s[1..][i - 1] == v;
    }
  }

  lemma IncreasingTail(s: seq<nat>, v: nat)
    requires Increasing(s) && s != [] && v in s[1..]
    ensures s[0] < v && v in s
  {
    var k :| 0 <= k < |s[1..]| && s[1..][k] == v;
    assert s[k + 1] == v;
  }

  /** Two increasing sequences with the same elements are equal. */
  lemma {:induction false} IncreasingUnique(x: seq<nat>, y: seq<nat>)
    requires Increasing(x) && Increasing(y)
    requires forall v :: v in x <==> v in y
    ensures x == y
    decreases |x|
  {
    SameElementsEmpty(x, y);
    if x != [] {
      IncreasingHeadLeast(x, y[0]);
      IncreasingHeadLeast(y, x[0]);
      assert x[0] == y[0];
      forall v
        ensures v in x[1..] <==> v in y[1..]
      {
        if v in x[1..] {
          IncreasingTail(x, v);
          IncreasingHeadLeast(y, v);
        }
        if v in y[1..] {
          IncreasingTail(y, v);
          IncreasingHeadLeast(x, v);
        }
      }
      assert Increasing(x[1..]) && Increasing(y[1..]);
      IncreasingUnique(x[1..], y[1..]);
      assert x == [x[0]] + x[1..] && y == [y[0]] + y[1..];
    }
  }

  /** Merge a and b in the order the schedule gives: true takes the next
      element of a, false the next of b; once the schedule or either list
      runs out, the rest follows in order. */
  function Interleave<T>(a: seq<T>, b: seq<T>, schedule: seq<bool>): seq<T>
    decreases |a| + |b|
  {
    if a == [] then b
    else if b == [] then a
    else if schedule == [] then a + b
    else if schedule[0] then [a[0]] + Interleave(a[1..], b, schedule[1..])
    else [b[0]] + Interleave(a, b[1..], schedule[1..])
  }

  lemma {:induction false} InterleaveKeeps<T>(a: seq<T>, b: seq<T>, schedule: seq<bool>)
    ensures |Interleave(a, b, schedule)| == |a| + |b|
    ensures forall x :: x in Interleave(a, b, schedule) <==> x in a || x in b
    decreases |a| + |b|
  {
    if a == [] || b == [] || schedule == [] {
    } else if schedule[0] {
      InterleaveKeeps(a[1..], b, schedule[1..]);
      assert a == [a[0]] + a[1..];
    } else {
      InterleaveKeeps(a, b[1..], schedule[1..]);
      assert b == [b[0]] + b[1..];
    }
  }

  /** Interleaving an empty second list gives the first. */
  lemma InterleaveEmpty<T>(a: seq<T>, schedule: seq<bool>)
    ensures Interleave(a, [], schedule) == a
  {
  }

  /** The elements p of ps for which mask[p] holds, in order. */
  function Filter(ps: seq<nat>, mask: seq<bool>): seq<nat>
  {
    if ps == [] then []
    else Filter(ps[..|ps| - 1], mask) + (if ps[|ps| - 1] < |mask| && mask[ps[|ps| - 1]] then [ps[|ps| - 1]] else [])
  }

  lemma {:induction false} FilterConcat(a: seq<nat>, b: seq<nat>, mask: seq<bool>)
    ensures Filter(a + b, mask) == Filter(a, mask) + Filter(b, mask)
    decreases |b|
  {
    if b == [] {
      assert a + b == a;
    } else {
      var n := |b| - 1;
      assert (a + b)[..|a + b| - 1] == a + b[..n];
      FilterConcat(a, b[..n], mask);
    }
  }

  /** Filtering the positions of outer by an inner mask that implies it gives
      the positions of inner. */
  lemma {:induction false} FilterPositions(outer: seq<bool>, inner: seq<bool>, lo: nat, hi: nat)
    requires lo <= hi <= |outer| == |inner|
    requires forall i :: lo <= i < hi ==> inner[i] ==> outer[i]
    ensures Filter(Positions(outer, true, lo, hi), inner) == Positions(inner, true, lo, hi)
    decreases hi - lo
  {
    if lo < hi {
      PositionsCons(outer, true, lo, hi);
      PositionsCons(inner, true, lo, hi);
      FilterPositions(outer, inner, lo + 1, hi);
      var head: seq<nat> := if outer[lo] then [lo] else [];
      FilterConcat(head, Positions(outer, true, lo + 1, hi), inner);
      if outer[lo] {
        assert Filter(head, inner) == Filter([], inner) + (if inner[lo] then [lo] else []);
      }
    }
  }

  /** The positions where outer is unset, merged with those where inner is
      set (inner implies outer), are exactly the positions that rest =
      outer && !inner leaves unset, each once. */
  lemma MergedPositions(outer: seq<bool>, inner: seq<bool>, rest: seq<bool>, order: seq<nat>)
    requires |outer| == |inner| == |rest|
    requires forall i :: 0 <= i < |outer| ==> (inner[i] ==> outer[i]) && rest[i] == (outer[i] && !inner[i])
    requires |order| == |Positions(outer, false, 0, |outer|)| + |Positions(inner, true, 0, |outer|)|
    requires forall x :: x in order <==> x in Positions(outer, false, 0, |outer|) || x in Positions(inner, true, 0, |outer|)
    ensures |order| + |Positions(rest, true, 0, |outer|)| == |outer|
    ensures forall i: nat :: i in order <==> i < |outer| && !rest[i]
  {
    var n := |outer|;
    PositionsSpec(outer, false, 0, n);
    PositionsSpec(inner, true, 0, n);
    PositionsCount(outer, 0, n);
    PositionsNestedCount(outer, inner, rest, 0, n);
  }

  /** An ascending list of exactly the positions where rest is unset is their list. */
  lemma SortedPositions(rest: seq<bool>, order: seq<nat>)
    requires Increasing(order)
    requires forall i: nat :: i in order <==> i < |rest| && !rest[i]
    ensures order == Positions(rest, false, 0, |rest|)
  {
    PositionsSpec(rest, false, 0, |rest|);
    IncreasingUnique(order, Positions(rest, false, 0, |rest|));
  }
}
