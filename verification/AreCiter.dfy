/**
 The search of `citerdissect`: dividing a span into iterations by trying end
 points in order of preference and backing up over the last one.

 The state of the search is a vector of end points, the level being tried and a
 limit on the next try.  Its invariant says every division that precedes the
 state has been ruled out, so a search that gives up has tried them all; and the
 vector, padded to full length, only ever falls.
 */
module AreCiter {
  import opened Wrappers
  import opened AreDissection

  /** Strictly preferred. */
  predicate Sooner(shorter: bool, e: nat, b: nat) {
    if shorter then e < b else b < e
  }

  /** The first `t` iterations all dissect. */
  ghost predicate AllGood(w: World, x: Plan, endpts: seq<nat>, t: nat) {
    forall u :: 1 <= u <= t && u < |endpts| ==> Good(w, x, endpts[u - 1], endpts[u])
  }

  /** Below level `k`, the end points are iterations that stop short of the end. */
  ghost predicate Path(w: World, x: Plan, m: nat, begin: nat, end: nat, endpts: seq<nat>, k: nat) {
    && 1 <= k <= m && |endpts| == m + 1 && endpts[0] == begin && begin < end
    && forall t :: 1 <= t < k ==> endpts[t - 1] < endpts[t] < end && Means(w, x, endpts[t - 1], endpts[t])
  }

  /** At level `t`, no end preferred to `b` leads to a division with these iterations before it. */
  ghost predicate Ruled(w: World, x: Plan, shorter: bool, m: nat, end: nat, endpts: seq<nat>, t: nat, b: nat)
    requires 1 <= t <= m && |endpts| == m + 1
  {
    forall e :: Sooner(shorter, e, b) && FirstEnd(w, x, shorter, m - t + 1, endpts[t - 1], end, e) ==> !AllGood(w, x, endpts, t - 1)
  }

  /** The same, with `b` itself. */
  ghost predicate RuledTo(w: World, x: Plan, shorter: bool, m: nat, end: nat, endpts: seq<nat>, t: nat, b: nat)
    requires 1 <= t <= m && |endpts| == m + 1
  {
    forall e :: Prefers(shorter, e, b) && FirstEnd(w, x, shorter, m - t + 1, endpts[t - 1], end, e) ==> !AllGood(w, x, endpts, t - 1)
  }

  ghost predicate RuledOut(w: World, x: Plan, shorter: bool, m: nat, end: nat, endpts: seq<nat>, t: nat)
    requires 1 <= t <= m && |endpts| == m + 1
  {
    var left, from := m - t + 1, endpts[t - 1];
    forall e :: FirstEnd(w, x, shorter, left, from, end, e) ==> !AllGood(w, x, endpts, t - 1)
  }

  ghost predicate Below(w: World, x: Plan, shorter: bool, m: nat, begin: nat, end: nat, endpts: seq<nat>, k: nat) {
    Path(w, x, m, begin, end, endpts, k) &&
    forall t :: 1 <= t < k ==> Ruled(w, x, shorter, m, end, endpts, t, endpts[t])
  }

  /** Level `k` is to be tried from `limit` on. */
  ghost predicate Trying(w: World, x: Plan, shorter: bool, m: nat, begin: nat, end: nat, endpts: seq<nat>, k: nat, limit: nat) {
    && Below(w, x, shorter, m, begin, end, endpts, k)
    && Ruled(w, x, shorter, m, end, endpts, k, limit)
    && endpts[k - 1] <= limit <= end
    && (shorter && k == m ==> limit == endpts[k - 1])
  }

  /** The end point at level `k` is to be replaced by a less preferred one. */
  ghost predicate Backing(w: World, x: Plan, shorter: bool, m: nat, begin: nat, end: nat, endpts: seq<nat>, k: nat) {
    && Below(w, x, shorter, m, begin, end, endpts, k)
    && endpts[k - 1] <= endpts[k] <= end
    && RuledTo(w, x, shorter, m, end, endpts, k, endpts[k])
    && (shorter && k == m ==> endpts[k] == end)
  }

  /** The body matches nothing from `i` that ends before `e`. */
  ghost predicate ShortestFrom(w: World, x: Plan, i: nat, e: nat) {
    forall f :: i < f < e ==> !Means(w, x, i, f)
  }

  /** The end point at level `k` is the most preferred not ruled out. */
  ghost predicate Chosen(w: World, x: Plan, shorter: bool, m: nat, begin: nat, end: nat, endpts: seq<nat>, k: nat) {
    && Below(w, x, shorter, m, begin, end, endpts, k)
    && endpts[k - 1] <= endpts[k] <= end && Means(w, x, endpts[k - 1], endpts[k])
    && Ruled(w, x, shorter, m, end, endpts, k, endpts[k])
    && (shorter ==> endpts[k - 1] < endpts[k])
    && (shorter && k == m ==> ShortestFrom(w, x, endpts[k - 1], endpts[k]))
  }

  lemma Start(w: World, x: Plan, shorter: bool, m: nat, begin: nat, end: nat, endpts: seq<nat>)
    requires begin < end && m > 0 && |endpts| == m + 1 && endpts[0] == begin
    ensures Trying(w, x, shorter, m, begin, end, endpts, 1, if shorter then begin else end)
  {
    hide Good, Means;
    FirstsBelow(w, x, shorter, m, begin, end);
  }

  /** Where the positions of a state lie. */
  lemma TryingBounds(w: World, x: Plan, shorter: bool, m: nat, begin: nat, end: nat, endpts: seq<nat>, k: nat, limit: nat)
    requires Trying(w, x, shorter, m, begin, end, endpts, k, limit)
    ensures 1 <= k <= m && |endpts| == m + 1 && begin <= endpts[k - 1] < end && endpts[k - 1] <= limit <= end
    ensures shorter && k == m ==> limit == endpts[k - 1]
    ensures forall t :: 1 <= t < k ==> begin <= endpts[t] <= end
  {
    hide Means, Good, Ruled;
    PathBounds(w, x, m, begin, end, endpts, k);
  }

  lemma ChosenPath(w: World, x: Plan, shorter: bool, m: nat, begin: nat, end: nat, endpts: seq<nat>, k: nat)
    requires Chosen(w, x, shorter, m, begin, end, endpts, k)
    ensures Path(w, x, m, begin, end, endpts, k) && endpts[k - 1] <= endpts[k] <= end
  {
  }

  lemma {:induction false} PathBounds(w: World, x: Plan, m: nat, begin: nat, end: nat, endpts: seq<nat>, k: nat)
    requires Path(w, x, m, begin, end, endpts, k)
    ensures forall t :: 0 <= t < k ==> begin <= endpts[t] < end
    decreases k
  {
    hide Means;
    if k > 1 {
      PathBounds(w, x, m, begin, end, endpts, k - 1);
      assert endpts[k - 1 - 1] < endpts[k - 1] < end;
    }
  }

  // ----- changing one end point

  lemma SetEnd(w: World, x: Plan, shorter: bool, m: nat, begin: nat, end: nat, endpts: seq<nat>, k: nat, e: nat)
    requires Below(w, x, shorter, m, begin, end, endpts, k)
    ensures Below(w, x, shorter, m, begin, end, endpts[k := e], k)
    ensures forall t: nat :: t < k ==> (AllGood(w, x, endpts, t) <==> AllGood(w, x, endpts[k := e], t))
    ensures forall b :: Ruled(w, x, shorter, m, end, endpts, k, b) <==> Ruled(w, x, shorter, m, end, endpts[k := e], k, b)
    ensures RuledOut(w, x, shorter, m, end, endpts, k) <==> RuledOut(w, x, shorter, m, end, endpts[k := e], k)
  {
    hide Good, Means, FirstEnd;
    var other := endpts[k := e];
    forall t: nat | t < k ensures AllGood(w, x, endpts, t) <==> AllGood(w, x, other, t) {
      assert forall u :: 0 <= u < k ==> other[u] == endpts[u];
    }
    forall t | 1 <= t < k ensures Ruled(w, x, shorter, m, end, other, t, other[t]) {
      assert Ruled(w, x, shorter, m, end, endpts, t, endpts[t]);
      assert AllGood(w, x, endpts, t - 1) <==> AllGood(w, x, other, t - 1);
    }
    assert AllGood(w, x, endpts, k - 1) <==> AllGood(w, x, other, k - 1);
    assert other[k - 1] == endpts[k - 1];
  }

  // ----- giving up a level

  lemma NotFirst(w: World, x: Plan, shorter: bool, m: nat, end: nat, endpts: seq<nat>, k: nat, e: nat)
    requires 1 <= k <= m && |endpts| == m + 1 && RuledOut(w, x, shorter, m, end, endpts, k)
    ensures FirstEnd(w, x, shorter, m - k + 1, endpts[k - 1], end, e) ==> !AllGood(w, x, endpts, k - 1)
  {
  }

  /** A level with nothing left rules out the end point below it. */
  lemma GiveUp(w: World, x: Plan, shorter: bool, m: nat, begin: nat, end: nat, endpts: seq<nat>, k: nat)
    requires Below(w, x, shorter, m, begin, end, endpts, k) && RuledOut(w, x, shorter, m, end, endpts, k)
    ensures k == 1 ==> !Divides(w, x, shorter, m, begin, end)
    ensures k > 1 ==> Backing(w, x, shorter, m, begin, end, endpts, k - 1)
  {
    hide Means, Good;
    if k == 1 {
      assert AllGood(w, x, endpts, k - 1);
      forall e ensures !FirstEnd(w, x, shorter, m, begin, end, e) {
        NotFirst(w, x, shorter, m, end, endpts, k, e);
      }
    } else {
      var t := k - 1;
      assert Ruled(w, x, shorter, m, end, endpts, t, endpts[t]);
      forall e | Prefers(shorter, e, endpts[t]) && FirstEnd(w, x, shorter, m - t + 1, endpts[t - 1], end, e)
        ensures !AllGood(w, x, endpts, t - 1)
      {
        if e != endpts[t] {
          assert Sooner(shorter, e, endpts[t]);
        } else {
          var f := FirstOf(w, x, shorter, m - t, e, end);
          NotFirst(w, x, shorter, m, end, endpts, k, f);
        }
      }
    }
  }

  /** No end within the limit: the level has nothing left. */
  lemma NoneLeft(w: World, x: Plan, shorter: bool, m: nat, begin: nat, end: nat, endpts: seq<nat>, k: nat, limit: nat)
    requires Trying(w, x, shorter, m, begin, end, endpts, k, limit)
    requires forall e :: endpts[k - 1] < e <= end && Means(w, x, endpts[k - 1], e) ==> Sooner(shorter, e, limit)
    ensures RuledOut(w, x, shorter, m, end, endpts, k)
  {
    var left, from := m - k + 1, endpts[k - 1];
    forall e | FirstEnd(w, x, shorter, left, from, end, e) ensures !AllGood(w, x, endpts, k - 1) {
      assert Sooner(shorter, e, limit);
    }
  }

  /** The end point chosen is not the end of the span, and no further iteration is allowed. */
  lemma NoRoom(w: World, x: Plan, shorter: bool, m: nat, begin: nat, end: nat, endpts: seq<nat>, k: nat)
    requires Chosen(w, x, shorter, m, begin, end, endpts, k) && k == m && endpts[k] != end
    ensures RuledOut(w, x, shorter, m, end, endpts, k)
  {
    var left, from := m - k + 1, endpts[k - 1];
    forall f | FirstEnd(w, x, shorter, left, from, end, f) ensures !AllGood(w, x, endpts, k - 1) {
      assert f == end;
      if !shorter { assert Sooner(shorter, f, endpts[k]); }
    }
  }

  // ----- going on

  /** The preferred end within the limit becomes the end point of the level. */
  lemma Take(w: World, x: Plan, shorter: bool, m: nat, begin: nat, end: nat, endpts: seq<nat>, k: nat, limit: nat, e: nat)
    requires Trying(w, x, shorter, m, begin, end, endpts, k, limit)
    requires endpts[k - 1] <= e <= end && Means(w, x, endpts[k - 1], e) && Prefers(shorter, limit, e)
    requires shorter ==> endpts[k - 1] < e
    requires forall f :: Prefers(shorter, limit, f) && Sooner(shorter, f, e) ==> !Means(w, x, endpts[k - 1], f) || f <= endpts[k - 1]
    ensures Chosen(w, x, shorter, m, begin, end, endpts[k := e], k)
  {
    SetEnd(w, x, shorter, m, begin, end, endpts, k, e);
    forall f | Sooner(shorter, f, e) && FirstEnd(w, x, shorter, m - k + 1, endpts[k - 1], end, f)
      ensures !AllGood(w, x, endpts, k - 1)
    {
      assert Sooner(shorter, f, limit) || Prefers(shorter, limit, f);
    }
    assert Ruled(w, x, shorter, m, end, endpts, k, e);
    assert Ruled(w, x, shorter, m, end, endpts[k := e], k, e);
    if shorter && k == m {
      var from := endpts[k - 1];
      forall f | from < f < e ensures !Means(w, x, from, f) {
        assert Prefers(shorter, limit, f) && Sooner(shorter, f, e);
      }
    }
  }

  lemma Deeper(w: World, x: Plan, shorter: bool, m: nat, begin: nat, end: nat, endpts: seq<nat>, k: nat)
    requires Chosen(w, x, shorter, m, begin, end, endpts, k) && k < m && endpts[k - 1] != endpts[k] && endpts[k] != end
    ensures Trying(w, x, shorter, m, begin, end, endpts, k + 1, if shorter then endpts[k] else end)
  {
    hide Means, Good;
    FirstsBelow(w, x, shorter, m - k, endpts[k], end);
  }

  // ----- backing up

  /** A division whose iterations do not all dissect is no division. */
  lemma Unverified(w: World, x: Plan, shorter: bool, m: nat, begin: nat, end: nat, endpts: seq<nat>, k: nat)
    requires Chosen(w, x, shorter, m, begin, end, endpts, k)
    requires endpts[k] == end && !AllGood(w, x, endpts, k)
    ensures Backing(w, x, shorter, m, begin, end, endpts, k)
  {
    forall e | Prefers(shorter, e, end) && FirstEnd(w, x, shorter, m - k + 1, endpts[k - 1], end, e)
      ensures !AllGood(w, x, endpts, k - 1)
    {
      if e != end { assert Sooner(shorter, e, end); }
    }
  }

  /** An empty iteration is no iteration. */
  lemma EmptyIteration(w: World, x: Plan, m: nat, begin: nat, end: nat, endpts: seq<nat>, k: nat)
    requires Chosen(w, x, false, m, begin, end, endpts, k)
    requires endpts[k] == endpts[k - 1]
    ensures Backing(w, x, false, m, begin, end, endpts, k)
  {
    PathBounds(w, x, m, begin, end, endpts, k);
    FirstsBelow(w, x, false, m - k + 1, endpts[k - 1], end);
    hide Good, Means, FirstEnd;
    forall e | Prefers(false, e, endpts[k]) && FirstEnd(w, x, false, m - k + 1, endpts[k - 1], end, e)
      ensures !AllGood(w, x, endpts, k - 1)
    {
      assert Sooner(false, e, endpts[k]);
    }
  }

  lemma LessPreferred(w: World, x: Plan, shorter: bool, m: nat, begin: nat, end: nat, endpts: seq<nat>, k: nat, limit: nat)
    requires Backing(w, x, shorter, m, begin, end, endpts, k)
    requires if shorter then endpts[k] < end && limit == endpts[k] + 1 else endpts[k] > endpts[k - 1] && limit == endpts[k] - 1
    ensures Trying(w, x, shorter, m, begin, end, endpts, k, limit) && Sooner(shorter, endpts[k], limit)
  {
    hide Good, Means, FirstEnd;
    forall e | Sooner(shorter, e, limit) && FirstEnd(w, x, shorter, m - k + 1, endpts[k - 1], end, e)
      ensures !AllGood(w, x, endpts, k - 1)
    {
      assert Prefers(shorter, e, endpts[k]);
    }
  }

  /** Past the last candidate of a level there is nothing. */
  lemma LastPreferred(w: World, x: Plan, shorter: bool, m: nat, begin: nat, end: nat, endpts: seq<nat>, k: nat)
    requires Backing(w, x, shorter, m, begin, end, endpts, k)
    requires if shorter then endpts[k] == end else endpts[k] <= endpts[k - 1] + 1
    ensures RuledOut(w, x, shorter, m, end, endpts, k)
  {
    FirstsBelow(w, x, shorter, m - k + 1, endpts[k - 1], end);
    hide Good, Means, FirstEnd;
    var left, from := m - k + 1, endpts[k - 1];
    forall e | FirstEnd(w, x, shorter, left, from, end, e) ensures !AllGood(w, x, endpts, k - 1) {
      assert Prefers(shorter, e, endpts[k]);
    }
  }

  // ----- success

  /** Iterations that all dissect and reach the end are the preferred division. */
  lemma {:induction false} Walk(w: World, x: Plan, shorter: bool, m: nat, begin: nat, end: nat, endpts: seq<nat>, k: nat, t: nat)
    requires Chosen(w, x, shorter, m, begin, end, endpts, k)
    requires endpts[k] == end && AllGood(w, x, endpts, k)
    requires t < k
    ensures Divides(w, x, shorter, m - t, endpts[t], end)
    ensures LastStart(w, x, shorter, m - t, endpts[t], end) == endpts[k - 1]
    decreases k - t
  {
    var i, e := endpts[t], endpts[t + 1];
    assert Good(w, x, i, e);
    if t + 1 < k {
      Walk(w, x, shorter, m, begin, end, endpts, k, t + 1);
    }
    assert FirstEnd(w, x, shorter, m - t, i, end, e);
    assert Ruled(w, x, shorter, m, end, endpts, t + 1, e);
    assert AllGood(w, x, endpts, t);
    forall q | FirstEnd(w, x, shorter, m - t, i, end, q) ensures Prefers(shorter, e, q) {
      if !Prefers(shorter, e, q) { assert Sooner(shorter, q, e); }
    }
    assert BestFirst(w, x, shorter, m - t, i, end, e);
    FirstIsBest(w, x, shorter, m - t, i, end, e);
  }

  lemma FirstIsBest(w: World, x: Plan, shorter: bool, m: nat, i: nat, j: nat, e: nat)
    requires BestFirst(w, x, shorter, m, i, j, e)
    ensures Divides(w, x, shorter, m, i, j)
    ensures LastStart(w, x, shorter, m, i, j) == if e == j then i else LastStart(w, x, shorter, m - 1, e, j)
  {
    BestFirstExists(w, x, shorter, m, i, j);
    assert forall r: nat :: BestFirst(w, x, shorter, m, i, j, r) ==> r == e;
  }

  // ----- termination

  function Power(base: nat, k: nat): nat {
    if k == 0 then 1 else base * Power(base, k - 1)
  }

  /** A vector of digits read as a number. */
  function Weight(digits: seq<nat>, base: nat): nat {
    if digits == [] then 0 else digits[0] * Power(base, |digits| - 1) + Weight(digits[1..], base)
  }

  lemma {:induction false} WeightBound(digits: seq<nat>, base: nat)
    requires forall k :: 0 <= k < |digits| ==> digits[k] < base
    ensures Weight(digits, base) < Power(base, |digits|)
    decreases |digits|
  {
    if digits != [] {
      WeightBound(digits[1..], base);
      Carries(digits[0], base, Power(base, |digits| - 1));
    }
  }

  lemma Scale(a: nat, b: nat, p: nat)
    requires a <= b
    ensures a * p <= b * p
  {
  }

  lemma Carries(a: nat, b: nat, p: nat)
    requires a < b
    ensures a * p + p <= b * p
  {
    assert (a + 1) * p == a * p + p;
    Scale(a + 1, b, p);
  }

  /** Lexicographically smaller vectors weigh less. */
  lemma {:induction false} WeightFalls(a: seq<nat>, b: seq<nat>, base: nat, k: nat)
    requires |a| == |b| && k < |a| && a[..k] == b[..k] && a[k] < b[k]
    requires forall q :: 0 <= q < |a| ==> a[q] < base
    ensures Weight(a, base) < Weight(b, base)
    decreases k
  {
    hide Power;
    if k == 0 {
      WeightBound(a[1..], base);
      Carries(a[0], b[0], Power(base, |a| - 1));
    } else {
      assert a[0] == a[..k][0] == b[..k][0] == b[0];
      assert a[1..][..k - 1] == a[..k][1..] && b[1..][..k - 1] == b[..k][1..];
      WeightFalls(a[1..], b[1..], base, k - 1);
    }
  }

  /** Pointwise smaller vectors weigh no more. */
  lemma {:induction false} WeightOrdered(a: seq<nat>, b: seq<nat>, base: nat)
    requires |a| == |b| && forall q :: 0 <= q < |a| ==> a[q] <= b[q]
    ensures Weight(a, base) <= Weight(b, base)
    decreases |a|
  {
    if a != [] {
      Scale(a[0], b[0], Power(base, |a| - 1));
      WeightOrdered(a[1..], b[1..], base);
    }
  }

  /** The end points, the limit, and padding: what is still to come, as digits. */
  function Padded(shorter: bool, m: nat, begin: nat, end: nat, endpts: seq<nat>, k: nat, limit: nat): (d: seq<nat>)
    requires begin <= end && |endpts| == m + 1
    ensures |d| == m && forall q :: 0 <= q < m ==> d[q] <= end - begin
  {
    seq(m, q requires 0 <= q < m =>
      var v := if q + 1 < k then endpts[q + 1] else if q + 1 == k then limit else if shorter then begin else end;
      if begin <= v <= end then (if shorter then end - v else v - begin) else 0)
  }

  function Measure(shorter: bool, m: nat, begin: nat, end: nat, endpts: seq<nat>, k: nat, limit: nat): nat
    requires begin <= end && |endpts| == m + 1
  {
    Weight(Padded(shorter, m, begin, end, endpts, k, limit), end - begin + 1)
  }

  /** Replacing the end point of a level by a less preferred limit lowers the measure. */
  lemma BackLowers(shorter: bool, m: nat, begin: nat, end: nat, endpts: seq<nat>, k: nat, limit: nat, k': nat, limit': nat)
    requires begin <= end && |endpts| == m + 1 && 1 <= k' <= k <= m
    requires forall t :: 1 <= t < k ==> begin <= endpts[t] <= end
    requires begin <= limit <= end && begin <= limit' <= end
    requires Sooner(shorter, if k' < k then endpts[k'] else limit, limit')
    ensures Measure(shorter, m, begin, end, endpts, k', limit') < Measure(shorter, m, begin, end, endpts, k, limit)
  {
    hide Weight;
    var a, b := Padded(shorter, m, begin, end, endpts, k', limit'), Padded(shorter, m, begin, end, endpts, k, limit);
    assert a[..k' - 1] == b[..k' - 1];
    assert a[k' - 1] < b[k' - 1];
    hide Padded;
    WeightFalls(a, b, end - begin + 1, k' - 1);
  }

  /** Going one level deeper does not raise the measure. */
  lemma DeeperKeeps(shorter: bool, m: nat, begin: nat, end: nat, endpts: seq<nat>, k: nat, limit: nat, e: nat)
    requires begin <= end && |endpts| == m + 1 && 1 <= k < m
    requires begin <= limit <= end && begin <= e <= end && Prefers(shorter, limit, e)
    ensures Measure(shorter, m, begin, end, endpts[k := e], k + 1, if shorter then e else end)
      <= Measure(shorter, m, begin, end, endpts, k, limit)
  {
    WeightOrdered(Padded(shorter, m, begin, end, endpts[k := e], k + 1, if shorter then e else end),
                  Padded(shorter, m, begin, end, endpts, k, limit), end - begin + 1);
  }

  /** The measure does not look at the end point of the level being tried. */
  lemma MeasureFrame(shorter: bool, m: nat, begin: nat, end: nat, endpts: seq<nat>, k: nat, limit: nat, e: nat)
    requires begin <= end && |endpts| == m + 1 && 1 <= k <= m
    ensures Measure(shorter, m, begin, end, endpts[k := e], k, limit) == Measure(shorter, m, begin, end, endpts, k, limit)
  {
    assert Padded(shorter, m, begin, end, endpts[k := e], k, limit) == Padded(shorter, m, begin, end, endpts, k, limit);
  }
}
