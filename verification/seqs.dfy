/** Order-preserving selection from a sequence, the shape of every table filter in the model. */
module Seqs {

  /** The elements of `s` that satisfy `p`, in their original order. */
  function Filter<T(!new)>(p: T -> bool, s: seq<T>): (r: seq<T>)
    ensures |r| <= |s|
    ensures forall x :: x in r <==> x in s && p(x)
  {
    if |s| == 0 then []
    else if p(s[0]) then [s[0]] + Filter(p, s[1..])
    else Filter(p, s[1..])
  }

  /** Every entry of `idx` is a position of `s`, and `r` holds the elements found there. */
  ghost predicate Aligned<T>(r: seq<T>, s: seq<T>, idx: seq<int>)
  {
    && |idx| == |r|
    && forall k :: 0 <= k < |idx| ==> 0 <= idx[k] < |s| && r[k] == s[idx[k]]
  }

  /** The entries of `idx` strictly increase. */
  ghost predicate Increasing(idx: seq<int>)
  {
    forall k, l :: 0 <= k < l < |idx| ==> idx[k] < idx[l]
  }

  /** Every element of `r` satisfies `p`. */
  ghost predicate AllSatisfy<T>(r: seq<T>, p: T -> bool)
  {
    forall k :: 0 <= k < |r| ==> p(r[k])
  }

  /** Every position of `s` whose element satisfies `p` is listed in `idx`. */
  ghost predicate Covers<T>(s: seq<T>, p: T -> bool, idx: seq<int>)
  {
    forall i :: 0 <= i < |s| && p(s[i]) ==> i in idx
  }

  /** `idx` lists, in increasing order, exactly the positions of `s` whose element satisfies
      `p`, and `r` holds those elements in that order. */
  ghost predicate Picks<T>(r: seq<T>, s: seq<T>, p: T -> bool, idx: seq<int>)
  {
    Aligned(r, s, idx) && Increasing(idx) && AllSatisfy(r, p) && Covers(s, p, idx)
  }

  /** `r` is the subsequence of `s` made of the elements satisfying `p`: nothing is
      added, nothing that qualifies is dropped, and the order of `s` is kept. */
  ghost predicate Selects<T>(r: seq<T>, s: seq<T>, p: T -> bool)
  {
    exists idx :: Picks(r, s, p, idx)
  }

  /** The positions `idx` shifted one place to the right. */
  function Shift(idx: seq<int>): (r: seq<int>)
    ensures |r| == |idx|
    ensures forall k :: 0 <= k < |idx| ==> r[k] == idx[k] + 1
  {
    seq(|idx|, k requires 0 <= k < |idx| => idx[k] + 1)
  }

  /** A position listed in `rest` reappears, one place right, in `Shift(rest)`. */
  lemma ShiftMember(rest: seq<int>, i: int)
    requires i - 1 in rest
    ensures i in Shift(rest)
  {
    var k :| 0 <= k < |rest| && rest[k] == i - 1;
    assert Shift(rest)[k] == i;
  }

  /** Prepending an element at position 0 keeps the alignment of the shifted positions. */
  lemma AlignedCons<T>(x: T, t: seq<T>, tr: seq<T>, rest: seq<int>)
    requires Aligned(tr, t, rest)
    ensures Aligned([x] + tr, [x] + t, [0] + Shift(rest))
    ensures Aligned(tr, [x] + t, Shift(rest))
  {
    var s, r, idx := [x] + t, [x] + tr, [0] + Shift(rest);
    forall k | 0 <= k < |idx|
      ensures 0 <= idx[k] < |s| && r[k] == s[idx[k]]
    {
      if k > 0 {
        assert idx[k] == rest[k - 1] + 1;
        assert r[k] == tr[k - 1];
        assert s[idx[k]] == t[rest[k - 1]];
      }
    }
    forall k | 0 <= k < |rest|
      ensures 0 <= Shift(rest)[k] < |s| && tr[k] == s[Shift(rest)[k]]
    {
      assert s[rest[k] + 1] == t[rest[k]];
    }
  }

  /** Shifting increasing non-negative positions and putting 0 in front keeps them increasing. */
  lemma IncreasingCons(rest: seq<int>)
    requires Increasing(rest)
    requires forall k :: 0 <= k < |rest| ==> 0 <= rest[k]
    ensures Increasing([0] + Shift(rest))
    ensures Increasing(Shift(rest))
  {
    var idx := [0] + Shift(rest);
    forall k, l | 0 <= k < l < |idx|
      ensures idx[k] < idx[l]
    {
      assert idx[l] == rest[l - 1] + 1;
      if k > 0 {
        assert idx[k] == rest[k - 1] + 1;
      }
    }
  }

  /** Selecting from `[x] + t` when `x` qualifies: `x` is picked at position 0 and the
      positions picked from `t` move one place right. */
  lemma PicksConsKeep<T>(p: T -> bool, x: T, t: seq<T>, tr: seq<T>, rest: seq<int>)
    requires Picks(tr, t, p, rest)
    requires p(x)
    ensures Picks([x] + tr, [x] + t, p, [0] + Shift(rest))
  {
    AlignedCons(x, t, tr, rest);
    IncreasingCons(rest);
    AllSatisfyCons(p, x, tr);
    CoversConsKeep(p, x, t, rest);
  }

  /** Prepending a qualifying element keeps every element qualifying. */
  lemma AllSatisfyCons<T>(p: T -> bool, x: T, tr: seq<T>)
    requires AllSatisfy(tr, p) && p(x)
    ensures AllSatisfy([x] + tr, p)
  {
    var r := [x] + tr;
    forall k | 0 <= k < |r|
      ensures p(r[k])
    {
      if k > 0 {
        assert r[k] == tr[k - 1];
      }
    }
  }

  /** Listing position 0 and the shifted positions covers `[x] + t`. */
  lemma CoversConsKeep<T>(p: T -> bool, x: T, t: seq<T>, rest: seq<int>)
    requires Covers(t, p, rest)
    ensures Covers([x] + t, p, [0] + Shift(rest))
  {
    var s, idx := [x] + t, [0] + Shift(rest);
    forall i | 0 <= i < |s| && p(s[i])
      ensures i in idx
    {
      if i == 0 {
        assert idx[0] == 0;
      } else {
        assert s[i] == t[i - 1];
        ShiftMember(rest, i);
        var k :| 0 <= k < |Shift(rest)| && Shift(rest)[k] == i;
        assert idx[k + 1] == i;
      }
    }
  }

  /** Selecting from `[x] + t` when `x` does not qualify: the positions picked from `t`
      move one place right. */
  lemma PicksConsSkip<T>(p: T -> bool, x: T, t: seq<T>, tr: seq<T>, rest: seq<int>)
    requires Picks(tr, t, p, rest)
    requires !p(x)
    ensures Picks(tr, [x] + t, p, Shift(rest))
  {
    var s := [x] + t;
    AlignedCons(x, t, tr, rest);
    IncreasingCons(rest);
    forall i | 0 <= i < |s| && p(s[i])
      ensures i in Shift(rest)
    {
      assert s[i] == t[i - 1];
      ShiftMember(rest, i);
    }
  }

  /** Filter computes the selection that `Selects` describes. */
  lemma {:induction false} FilterPicks<T(!new)>(p: T -> bool, s: seq<T>) returns (idx: seq<int>)
    ensures Picks(Filter(p, s), s, p, idx)
    decreases |s|
  {
    if |s| == 0 {
      idx := [];
    } else {
      var rest := FilterPicks(p, s[1..]);
      assert s == [s[0]] + s[1..];
      if p(s[0]) {
        PicksConsKeep(p, s[0], s[1..], Filter(p, s[1..]), rest);
        idx := [0] + Shift(rest);
      } else {
        PicksConsSkip(p, s[0], s[1..], Filter(p, s[1..]), rest);
        idx := Shift(rest);
      }
    }
  }

  /** Filter is order-preserving selection. */
  lemma FilterSelects<T(!new)>(p: T -> bool, s: seq<T>)
    ensures Selects(Filter(p, s), s, p)
  {
    var idx := FilterPicks(p, s);
  }

  /** The head of a strictly increasing sequence is its least element. */
  lemma HeadIsLeast(a: seq<int>)
    requires |a| > 0
    requires forall k, l :: 0 <= k < l < |a| ==> a[k] < a[l]
    ensures forall x :: x in a ==> a[0] <= x
  {
    forall x | x in a
      ensures a[0] <= x
    {
      var k :| 0 <= k < |a| && a[k] == x;
      if k > 0 {
        assert a[0] < a[k];
      }
    }
  }

  /** Two strictly increasing sequences with the same elements are equal. */
  lemma {:induction false} IncreasingSameElements(a: seq<int>, b: seq<int>)
    requires forall k, l :: 0 <= k < l < |a| ==> a[k] < a[l]
    requires forall k, l :: 0 <= k < l < |b| ==> b[k] < b[l]
    requires forall x :: x in a <==> x in b
    ensures a == b
    decreases |a|
  {
    if |b| > 0 {
      assert b[0] in b;
    }
    if |a| > 0 {
      assert a[0] in a;
      assert |b| > 0;
      HeadIsLeast(a);
      HeadIsLeast(b);
      assert a[0] == b[0];
      TailsSameElements(a, b);
      IncreasingSameElements(a[1..], b[1..]);
      assert a == [a[0]] + a[1..];
      assert b == [b[0]] + b[1..];
    }
  }

  /** Increasing sequences with the same elements and the same head have tails with the
      same elements. */
  lemma TailsSameElements(a: seq<int>, b: seq<int>)
    requires |a| > 0 && |b| > 0 && a[0] == b[0]
    requires forall k, l :: 0 <= k < l < |a| ==> a[k] < a[l]
    requires forall k, l :: 0 <= k < l < |b| ==> b[k] < b[l]
    requires forall x :: x in a <==> x in b
    ensures forall x :: x in a[1..] <==> x in b[1..]
  {
    forall x
      ensures x in a[1..] <==> x in b[1..]
    {
      assert x in a <==> x in a[..1] || x in a[1..] by { assert a == a[..1] + a[1..]; }
      assert x in b <==> x in b[..1] || x in b[1..] by { assert b == b[..1] + b[1..]; }
      if x in a[1..] {
        var k :| 0 <= k < |a[1..]| && a[1..][k] == x;
        assert a[k + 1] == x && a[0] < x;
      }
      if x in b[1..] {
        var k :| 0 <= k < |b[1..]| && b[1..][k] == x;
        assert b[k + 1] == x && b[0] < x;
      }
    }
  }

  /** The positions listed by `Picks` are exactly those whose element qualifies. */
  lemma PickedPositions<T>(r: seq<T>, s: seq<T>, p: T -> bool, idx: seq<int>)
    requires Picks(r, s, p, idx)
    ensures forall i :: i in idx <==> 0 <= i < |s| && p(s[i])
  {
    forall i | i in idx
      ensures 0 <= i < |s| && p(s[i])
    {
      var k :| 0 <= k < |idx| && idx[k] == i;
      assert p(r[k]);
    }
  }

  /** `Selects` pins the result down: at most one sequence is the selection. */
  lemma SelectsUnique<T>(r1: seq<T>, r2: seq<T>, s: seq<T>, p: T -> bool)
    requires Selects(r1, s, p)
    requires Selects(r2, s, p)
    ensures r1 == r2
  {
    var idx1 :| Picks(r1, s, p, idx1);
    var idx2 :| Picks(r2, s, p, idx2);
    PickedPositions(r1, s, p, idx1);
    PickedPositions(r2, s, p, idx2);
    IncreasingSameElements(idx1, idx2);
  }

  /** When every element qualifies, nothing is filtered out. */
  lemma {:induction false} FilterKeepsAll<T(!new)>(p: T -> bool, s: seq<T>)
    requires forall k :: 0 <= k < |s| ==> p(s[k])
    ensures Filter(p, s) == s
    decreases |s|
  {
    if |s| > 0 {
      FilterKeepsAll(p, s[1..]);
      assert s == [s[0]] + s[1..];
    }
  }

  /** Filtering a concatenation filters each part. */
  lemma {:induction false} FilterAppend<T(!new)>(p: T -> bool, s: seq<T>, t: seq<T>)
    ensures Filter(p, s + t) == Filter(p, s) + Filter(p, t)
    decreases |s|
  {
    if |s| > 0 {
      var st := s + t;
      assert st[0] == s[0] && st[1..] == s[1..] + t;
      FilterAppend(p, s[1..], t);
      if p(s[0]) {
        assert Filter(p, st) == [s[0]] + Filter(p, s[1..] + t);
      } else {
        assert Filter(p, st) == Filter(p, s[1..] + t);
      }
    } else {
      assert s + t == t;
    }
  }

  /** When no element qualifies, nothing is kept. */
  lemma {:induction false} FilterKeepsNone<T(!new)>(p: T -> bool, s: seq<T>)
    requires forall k :: 0 <= k < |s| ==> !p(s[k])
    ensures Filter(p, s) == []
    decreases |s|
  {
    if |s| > 0 {
      FilterKeepsNone(p, s[1..]);
    }
  }
}
