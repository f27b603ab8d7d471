/**
 Character sets: `New` sorts and merges the ranges a class was written with, and
 `Contains` finds the one range that could hold a character by bisection.
 */
module AreCharSet {
  import opened AreSyntax

  ghost predicate Covers(ranges: seq<(nat, nat)>, c: nat) {
    exists r :: r in ranges && r.0 <= c <= r.1
  }

  // ----- sorting

  predicate Before(a: (nat, nat), b: (nat, nat)) {
    a.0 < b.0 || (a.0 == b.0 && a.1 <= b.1)
  }

  ghost predicate Sorted(ranges: seq<(nat, nat)>) {
    forall j, k | 0 <= j < k < |ranges| :: Before(ranges[j], ranges[k])
  }

  /** `sort_unstable` on ranges, by insertion. */
  method Sort(ranges: seq<(nat, nat)>) returns (out: seq<(nat, nat)>)
    ensures Sorted(out) && multiset(out) == multiset(ranges)
  {
    out := [];
    for i := 0 to |ranges|
      invariant Sorted(out) && multiset(out) == multiset(ranges[..i])
    {
      out := Insert(out, ranges[i]);
      assert ranges[..i + 1] == ranges[..i] + [ranges[i]];
    }
    assert ranges[..|ranges|] == ranges;
  }

  method Insert(sorted: seq<(nat, nat)>, r: (nat, nat)) returns (out: seq<(nat, nat)>)
    requires Sorted(sorted)
    ensures Sorted(out) && multiset(out) == multiset(sorted) + multiset{r}
  {
    var at := 0;
    while at < |sorted| && Before(sorted[at], r)
      invariant at <= |sorted|
      invariant forall k | 0 <= k < at :: Before(sorted[k], r)
    {
      at := at + 1;
    }
    out := sorted[..at] + [r] + sorted[at..];
    SplicedIn(sorted, at, r);
    hide Before;
  }

  lemma SplicedIn(sorted: seq<(nat, nat)>, at: nat, r: (nat, nat))
    requires at <= |sorted|
    ensures multiset(sorted[..at] + [r] + sorted[at..]) == multiset(sorted) + multiset{r}
  {
    assert sorted == sorted[..at] + sorted[at..];
  }

  // ----- the normal form

  /**
   Sort the ranges of a class and merge those that touch.  The set means what the
   ranges written mean.
   */
  method New(ranges: seq<(nat, nat)>, negated: bool) returns (cs: CharSet)
    requires forall r | r in ranges :: r.0 <= r.1
    ensures Normal(cs) && cs.negated == negated
    ensures forall c :: InSet(cs, c) <==> (Covers(ranges, c) != negated)
  {
    var sorted := Sort(ranges);
    SameElements(sorted, ranges);
    var merged := Merge(sorted, negated);
    cs := CharSet(merged, negated);
    forall c ensures InSet(cs, c) <==> (Covers(ranges, c) != negated) {
      assert Covers(merged, c) == Covers(sorted, c) == Covers(ranges, c);
    }
  }

  lemma SameElements(a: seq<(nat, nat)>, b: seq<(nat, nat)>)
    requires multiset(a) == multiset(b)
    ensures forall r :: r in a <==> r in b
    ensures forall c :: Covers(a, c) <==> Covers(b, c)
  {
    forall r ensures r in a <==> r in b {
      assert r in multiset(a) <==> r in multiset(b);
    }
  }

  method Merge(sorted: seq<(nat, nat)>, ghost negated: bool) returns (merged: seq<(nat, nat)>)
    requires Sorted(sorted) && forall r | r in sorted :: r.0 <= r.1
    ensures Normal(CharSet(merged, negated))
    ensures forall c :: Covers(merged, c) <==> Covers(sorted, c)
  {
    merged := [];
    for i := 0 to |sorted|
      invariant Normal(CharSet(merged, negated))
      invariant merged != [] ==> i > 0 && merged[|merged| - 1].0 <= sorted[i - 1].0
      invariant forall c :: Covers(merged, c) <==> Covers(sorted[..i], c)
    {
      ghost var before := merged;
      var (a, b) := sorted[i];
      assert i > 0 ==> Before(sorted[i - 1], sorted[i]);
      if merged != [] && a <= merged[|merged| - 1].1 + 1 {
        var last := merged[|merged| - 1];
        merged := merged[|merged| - 1 := (last.0, if last.1 < b then b else last.1)];
      } else {
        merged := merged + [(a, b)];
      }
      forall c ensures Covers(merged, c) <==> Covers(sorted[..i + 1], c) {
        assert sorted[..i + 1] == sorted[..i] + [sorted[i]];
        AppendCovers(sorted[..i], sorted[i], c);
        if |merged| == |before| {
          MergeCovers(before, a, b, c);
        } else {
          AppendCovers(before, (a, b), c);
        }
      }
    }
    assert sorted[..|sorted|] == sorted;
  }

  lemma AppendCovers(ranges: seq<(nat, nat)>, r: (nat, nat), c: nat)
    ensures Covers(ranges + [r], c) <==> Covers(ranges, c) || r.0 <= c <= r.1
  {
    if Covers(ranges, c) {
      var q :| q in ranges && q.0 <= c <= q.1;
      assert q in ranges + [r];
    }
    if r.0 <= c <= r.1 { assert r in ranges + [r]; }
  }

  lemma MergeCovers(ranges: seq<(nat, nat)>, a: nat, b: nat, c: nat)
    requires ranges != [] && ranges[|ranges| - 1].0 <= ranges[|ranges| - 1].1
    requires ranges[|ranges| - 1].0 <= a <= ranges[|ranges| - 1].1 + 1 && a <= b
    ensures
      var n, last := |ranges| - 1, ranges[|ranges| - 1];
      Covers(ranges[n := (last.0, if last.1 < b then b else last.1)], c) <==> Covers(ranges, c) || a <= c <= b
  {
    var n, last := |ranges| - 1, ranges[|ranges| - 1];
    var r: (nat, nat) := (last.0, if last.1 < b then b else last.1);
    assert ranges == ranges[..n] + [last];
    assert ranges[n := r] == ranges[..n] + [r];
    AppendCovers(ranges[..n], last, c);
    AppendCovers(ranges[..n], r, c);
  }

  /**
   Whether a character is in the set: `partition_point` finds the first range
   that ends at or after it, and no other range can hold it.
   */
  method Contains(cs: CharSet, c: nat) returns (inside: bool)
    requires Normal(cs)
    ensures inside <==> InSet(cs, c)
  {
    var lo, hi := 0, |cs.ranges|;
    while lo < hi
      invariant 0 <= lo <= hi <= |cs.ranges|
      invariant forall k | 0 <= k < lo :: cs.ranges[k].1 < c
      invariant forall k | hi <= k < |cs.ranges| :: c <= cs.ranges[k].1
    {
      var mid := (lo + hi) / 2;
      if cs.ranges[mid].1 < c {
        lo := mid + 1;
      } else {
        hi := mid;
      }
    }
    var found := lo < |cs.ranges| && cs.ranges[lo].0 <= c;
    inside := found != cs.negated;
    if found { assert cs.ranges[lo] in cs.ranges; }
  }
}
