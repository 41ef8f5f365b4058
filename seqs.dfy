/** Order-preserving selection from a sequence: the shape of every `reduce` that pushes
    the elements passing a test into an accumulator list. */
module Seqs {

  /** The elements of `s` that satisfy `p`, in their original order. */
  function Filter<T>(s: seq<T>, p: T -> bool): (r: seq<T>)
    ensures |r| <= |s|
    ensures forall x :: x in r ==> x in s && p(x)
  {
    if |s| == 0 then [] else (if p(s[0]) then [s[0]] else []) + Filter(s[1..], p)
  }

  /** How many elements of `s` fail `p`, i.e. how many `Filter` drops. */
  function Dropped<T>(s: seq<T>, p: T -> bool): (r: nat) {
    if |s| == 0 then 0 else (if p(s[0]) then 0 else 1) + Dropped(s[1..], p)
  }

  /** Processing one more element appends it exactly when it passes: the loop step of a
      push-inside-reduce. */
  lemma {:induction false} FilterSnoc<T>(s: seq<T>, x: T, p: T -> bool)
    ensures Filter(s + [x], p) == Filter(s, p) + (if p(x) then [x] else [])
  {
    if |s| == 0 {
      assert s + [x] == [x];
    } else {
      assert (s + [x])[1..] == s[1..] + [x];
      FilterSnoc(s[1..], x, p);
    }
  }

  /** A sequence whose every element passes is kept whole. */
  lemma {:induction false} FilterAll<T>(s: seq<T>, p: T -> bool)
    requires forall i :: 0 <= i < |s| ==> p(s[i])
    ensures Filter(s, p) == s
  {
    if |s| > 0 {
      FilterAll(s[1..], p);
    }
  }

  /** A sequence none of whose elements passes is dropped whole. */
  lemma {:induction false} FilterNone<T>(s: seq<T>, p: T -> bool)
    requires forall i :: 0 <= i < |s| ==> !p(s[i])
    ensures Filter(s, p) == []
  {
    if |s| > 0 {
      FilterNone(s[1..], p);
    }
  }

  /** Filtering twice with the same test is filtering once. */
  lemma {:induction false} FilterIdempotent<T>(s: seq<T>, p: T -> bool)
    ensures Filter(Filter(s, p), p) == Filter(s, p)
  {
    if |s| > 0 {
      FilterIdempotent(s[1..], p);
      var f := Filter(s, p);
      if p(s[0]) {
        assert f == [s[0]] + Filter(s[1..], p);
        assert f[0] == s[0] && f[1..] == Filter(s[1..], p);
        assert Filter(f, p) == [s[0]] + Filter(f[1..], p);
      } else {
        assert f == Filter(s[1..], p);
      }
    }
  }

  /** Of `N` elements of which `K` fail the test, `Filter` keeps `N - K`. */
  lemma {:induction false} FilterLength<T>(s: seq<T>, p: T -> bool)
    ensures |Filter(s, p)| == |s| - Dropped(s, p)
  {
    if |s| > 0 {
      FilterLength(s[1..], p);
    }
  }

  /** `Filter` is exactly an order-preserving selection: the result is `s` read at a strictly
      increasing sequence of positions, and a position is selected iff its element passes. */
  lemma {:induction false} FilterSelects<T>(s: seq<T>, p: T -> bool) returns (idx: seq<nat>)
    ensures |idx| == |Filter(s, p)|
    ensures forall j :: 0 <= j < |idx| ==> idx[j] < |s| && Filter(s, p)[j] == s[idx[j]]
    ensures forall j, k :: 0 <= j < k < |idx| ==> idx[j] < idx[k]
    ensures forall i :: 0 <= i < |s| ==> (p(s[i]) <==> i in idx)
  {
    if |s| == 0 {
      idx := [];
    } else {
      var rest := FilterSelects(s[1..], p);
      idx := (if p(s[0]) then [0] else []) + Shift(rest);
      PositionsStep(s, p, rest, idx);
      OrderStep(if p(s[0]) then [0] else [], rest, idx);
      SelectsStep(s, p, rest, idx);
    }
  }

  /** The inductive step of `FilterSelects` for the positions read. */
  lemma PositionsStep<T>(s: seq<T>, p: T -> bool, rest: seq<nat>, idx: seq<nat>)
    requires |s| > 0
    requires |rest| == |Filter(s[1..], p)|
    requires forall j :: 0 <= j < |rest| ==> rest[j] < |s| - 1 && Filter(s[1..], p)[j] == s[1..][rest[j]]
    requires idx == (if p(s[0]) then [0] else []) + Shift(rest)
    ensures |idx| == |Filter(s, p)|
    ensures forall j :: 0 <= j < |idx| ==> idx[j] < |s| && Filter(s, p)[j] == s[idx[j]]
  {
    var tail := Filter(s[1..], p);
    if p(s[0]) {
      assert Filter(s, p) == [s[0]] + tail;
      forall j | 0 <= j < |idx|
        ensures idx[j] < |s| && Filter(s, p)[j] == s[idx[j]]
      {
        if j > 0 {
          ShiftedPosition(s, rest, j - 1);
          assert Filter(s, p)[j] == tail[j - 1];
        }
      }
    } else {
      assert Filter(s, p) == tail;
      forall j | 0 <= j < |idx|
        ensures idx[j] < |s| && Filter(s, p)[j] == s[idx[j]]
      {
        ShiftedPosition(s, rest, j);
      }
    }
  }

  lemma ShiftedPosition<T>(s: seq<T>, rest: seq<nat>, m: nat)
    requires |s| > 0 && m < |rest| && rest[m] < |s| - 1
    ensures Shift(rest)[m] == rest[m] + 1 && s[1..][rest[m]] == s[Shift(rest)[m]]
  {
  }

  /** The inductive step of `FilterSelects` for the order of the positions. */
  lemma OrderStep(head: seq<nat>, rest: seq<nat>, idx: seq<nat>)
    requires head == [] || head == [0]
    requires forall j, k :: 0 <= j < k < |rest| ==> rest[j] < rest[k]
    requires idx == head + Shift(rest)
    ensures forall j, k :: 0 <= j < k < |idx| ==> idx[j] < idx[k]
  {
    forall j, k | 0 <= j < k < |idx|
      ensures idx[j] < idx[k]
    {
      assert idx[k] == rest[k - |head|] + 1;
      if j >= |head| {
        assert idx[j] == rest[j - |head|] + 1;
      }
    }
  }

  /** The inductive step of `FilterSelects` for the selection condition. */
  lemma SelectsStep<T>(s: seq<T>, p: T -> bool, rest: seq<nat>, idx: seq<nat>)
    requires |s| > 0
    requires forall i :: 0 <= i < |s| - 1 ==> (p(s[1..][i]) <==> i in rest)
    requires idx == (if p(s[0]) then [0] else []) + Shift(rest)
    ensures forall i :: 0 <= i < |s| ==> (p(s[i]) <==> i in idx)
  {
    forall i | 0 <= i < |s|
      ensures p(s[i]) <==> i in idx
    {
      ShiftMember(rest, i);
      if i > 0 {
        assert s[i] == s[1..][i - 1];
      }
    }
  }

  /** Every position moved one place to the right. */
  function Shift(idx: seq<nat>): (r: seq<nat>)
    ensures |r| == |idx|
    ensures forall j :: 0 <= j < |idx| ==> r[j] == idx[j] + 1
  {
    seq(|idx|, j requires 0 <= j < |idx| => idx[j] + 1)
  }

  lemma ShiftMember(idx: seq<nat>, i: nat)
    ensures i in Shift(idx) <==> i > 0 && i - 1 in idx
  {
    var r := Shift(idx);
    if i in r {
      var j :| 0 <= j < |r| && r[j] == i;
      assert idx[j] == i - 1;
    }
    if i > 0 && i - 1 in idx {
      var j :| 0 <= j < |idx| && idx[j] == i - 1;
      assert r[j] == i;
    }
  }
}
