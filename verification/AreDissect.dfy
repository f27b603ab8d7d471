/**
 The dissection procedure: given a span the whole pattern matches, assign the
 sub-matches inside it from the top down.
 */
module AreDissect {
  import opened Wrappers
  import opened AreSyntax
  import opened AreProgram
  import opened AreSearch
  import opened AreEnds
  import opened AreDissection
  import opened AreCiter
  import opened Finite

  class Dissect {
    const engine: Engine
    const progs: seq<seq<Inst>>
    const search: Search
    /** The number of slots of a capture vector. */
    const slots: nat
    ghost const bases: seq<nat>
    ghost const w: World
    /** `Ends` answers, which without a back-reference do not depend on the captures. */
    var cache: map<(nat, nat), seq<nat>>

    ghost predicate Valid()
      reads this
    {
      && engine.Valid() && w.s == search.s && w.groups == engine.groups
      && |progs| == |w.sources| == |bases|
      && 2 * (w.groups + 1) <= slots
      && (forall k :: 0 <= k < |progs| ==>
           Unit(engine.Img(), progs[k], w.sources[k], w.groups, bases[k]) && bases[k] + SeqMarks(w.sources[k]) <= slots)
      && (forall q :: q in cache ==> q.0 < |progs| && IsEnds(q.0, q.1, cache[q]))
    }

    /** `ends` lists, in order, where a program can end from a position. */
    ghost predicate IsEnds(prog: nat, from: nat, ends: seq<nat>)
      requires prog < |w.sources|
    {
      Ascending(ends) && forall j :: j in ends <==> MatchesSeq(w.s, w.sources[prog], from, j)
    }

    /** A capture vector whose loop slots are free. */
    ghost predicate Clean(caps: Caps) {
      |caps| == slots && forall k :: 2 * (w.groups + 1) <= k < slots ==> caps[k] == None
    }

    constructor (engine: Engine, progs: seq<seq<Inst>>, search: Search, slots: nat, ghost bases: seq<nat>, ghost w: World)
      requires engine.Valid() && w.s == search.s && w.groups == engine.groups
      requires |progs| == |w.sources| == |bases| && 2 * (w.groups + 1) <= slots
      requires forall k :: 0 <= k < |progs| ==>
        Unit(engine.Img(), progs[k], w.sources[k], w.groups, bases[k]) && bases[k] + SeqMarks(w.sources[k]) <= slots
      ensures Valid() && this.w == w && this.slots == slots && this.search == search && this.engine == engine
    {
      this.engine, this.progs, this.search, this.slots, this.bases, this.w := engine, progs, search, slots, bases, w;
      cache := map[];
    }

    method Ends(p: Plan, from: nat, caps: Caps) returns (outcome: Outcome, ends: seq<nat>)
      requires Valid() && p.prog < |progs| && from <= |w.s.text| && Clean(caps)
      modifies search, this`cache
      ensures Valid() && (outcome == Overflow ==> search.budget == 0)
      ensures outcome == Done ==> Ascending(ends) && forall j :: j in ends <==> Means(w, p, from, j)
    {
      hide MatchesSeq;
      if (p.prog, from) in cache {
        return Done, cache[(p.prog, from)];
      }
      outcome, ends := AreEnds.Ends(engine, progs[p.prog], search, from, caps, w.sources[p.prog], bases[p.prog]);
      if outcome == Done {
        cache := cache[(p.prog, from) := ends];
      }
    }

    /** Whether `p` can match exactly `[i, j)`. */
    method Exact(p: Plan, i: nat, j: nat, caps: Caps) returns (outcome: Outcome, yes: bool)
      requires Valid() && p.prog < |progs| && i <= |w.s.text| && Clean(caps)
      modifies search, this`cache
      ensures Valid() && (outcome == Overflow ==> search.budget == 0)
      ensures outcome == Done ==> (yes <==> Means(w, p, i, j))
    {
      var ends;
      outcome, ends := Ends(p, i, caps);
      yes := j in ends;
    }

    /** Candidate ends of a part, ordered by preference. */
    static method Order(ends: seq<nat>, shorter: bool) returns (out: seq<nat>)
      requires Ascending(ends)
      ensures forall x :: x in out <==> x in ends
      ensures forall a, b :: 0 <= a < b < |out| ==> Sooner(shorter, out[a], out[b])
    {
      if shorter {
        out := ends;
      } else {
        out := seq(|ends|, k requires 0 <= k < |ends| => ends[|ends| - 1 - k]);
        forall x | x in ends ensures x in out {
          var k :| 0 <= k < |ends| && ends[k] == x;
          assert out[|ends| - 1 - k] == x;
        }
      }
    }

    /** The largest end of `p` from `from` that is at most `limit`. */
    method LongestEnd(p: Plan, from: nat, limit: nat, caps: Caps) returns (outcome: Outcome, end: Option<nat>)
      requires Valid() && p.prog < |progs| && from <= |w.s.text| && Clean(caps)
      modifies search, this`cache
      ensures Valid() && (outcome == Overflow ==> search.budget == 0)
      ensures outcome == Done && end.Some? ==>
        Means(w, p, from, end.value) && end.value <= limit && forall e :: end.value < e <= limit ==> !Means(w, p, from, e)
      ensures outcome == Done && end.None? ==> forall e: nat :: e <= limit ==> !Means(w, p, from, e)
    {
      var ends;
      outcome, ends := Ends(p, from, caps);
      end := None;
      if outcome == Overflow { return; }
      var k := |ends|;
      while k > 0
        invariant 0 <= k <= |ends|
        invariant forall q :: k <= q < |ends| ==> ends[q] > limit
      {
        k := k - 1;
        if ends[k] <= limit {
          assert ends[k] in ends;
          return Done, Some(ends[k]);
        }
      }
    }

    /** The smallest end of `p` from `from` that is at least `limit`. */
    method ShortestEnd(p: Plan, from: nat, limit: nat, caps: Caps) returns (outcome: Outcome, end: Option<nat>)
      requires Valid() && p.prog < |progs| && from <= |w.s.text| && Clean(caps)
      modifies search, this`cache
      ensures Valid() && (outcome == Overflow ==> search.budget == 0)
      ensures outcome == Done && end.Some? ==>
        Means(w, p, from, end.value) && limit <= end.value && forall e :: limit <= e < end.value ==> !Means(w, p, from, e)
      ensures outcome == Done && end.None? ==> forall e :: limit <= e ==> !Means(w, p, from, e)
    {
      var ends;
      outcome, ends := Ends(p, from, caps);
      end := None;
      if outcome == Overflow { return; }
      for k := 0 to |ends|
        invariant forall q :: 0 <= q < k ==> ends[q] < limit
      {
        if ends[k] >= limit {
          assert ends[k] in ends;
          return Done, Some(ends[k]);
        }
      }
    }

    /** Every end of `p` from any of the positions. */
    method NextEnds(p: Plan, here: seq<nat>, caps: Caps) returns (outcome: Outcome, next: seq<nat>)
      requires Valid() && p.prog < |progs| && Clean(caps) && forall q :: q in here ==> q <= |w.s.text|
      modifies search, this`cache
      ensures Valid() && (outcome == Overflow ==> search.budget == 0)
      ensures outcome == Done ==> Ascending(next) && forall e :: e in next <==> exists q :: q in here && Means(w, p, q, e)
    {
      next := [];
      for k := 0 to |here|
        invariant Valid()
        invariant forall e :: e in next <==> exists q :: q in here[..k] && Means(w, p, q, e)
      {
        var ends;
        assert here[k] in here;
        outcome, ends := Ends(p, here[k], caps);
        if outcome == Overflow { return; }
        ghost var before := next;
        next := next + ends;
        assert here[..k + 1] == here[..k] + [here[k]];
      }
      outcome := Done;
      assert here[..|here|] == here;
      next := SortDedup(next);
    }

    /** Whether the elements can match exactly `[from, j)`. */
    method RestExact(rest: seq<Elem>, from: nat, j: nat, caps: Caps) returns (outcome: Outcome, yes: bool)
      requires Valid() && from <= |w.s.text| && Clean(caps) && forall e :: e in rest ==> e.plan.prog < |progs|
      modifies search, this`cache
      ensures Valid() && (outcome == Overflow ==> search.budget == 0)
      ensures outcome == Done ==> (yes <==> SeqMeans(w, rest, from, j))
    {
      var here := [from];
      assert rest[0..] == rest;
      for k := 0 to |rest|
        invariant Valid() && forall q :: q in here ==> q <= |w.s.text|
        invariant SeqMeans(w, rest, from, j) <==> exists q :: q in here && SeqMeans(w, rest[k..], q, j)
      {
        assert rest[k] in rest;
        var next;
        outcome, next := NextEnds(rest[k].plan, here, caps);
        if outcome == Overflow { return outcome, false; }
        StepRestExact(rest[k..], here, next, j);
        assert rest[k..][1..] == rest[k + 1..];
        here := next;
        if here == [] { return Done, false; }
      }
      outcome := Done;
      yes := j in here;
      assert rest[|rest|..] == [];
    }

    lemma StepRestExact(rest: seq<Elem>, here: seq<nat>, next: seq<nat>, j: nat)
      requires rest != []
      requires forall e :: e in next <==> exists q :: q in here && Means(w, rest[0].plan, q, e)
      ensures (exists q :: q in here && SeqMeans(w, rest, q, j)) <==> exists q :: q in next && SeqMeans(w, rest[1..], q, j)
      ensures forall e :: e in next ==> e <= |w.s.text|
    {
      if exists q :: q in here && SeqMeans(w, rest, q, j) {
        var q :| q in here && SeqMeans(w, rest, q, j);
        var m :| Means(w, rest[0].plan, q, m) && SeqMeans(w, rest[1..], m, j);
        assert m in next;
      }
      if exists m :: m in next && SeqMeans(w, rest[1..], m, j) {
        var m :| m in next && SeqMeans(w, rest[1..], m, j);
        var q :| q in here && Means(w, rest[0].plan, q, m);
        assert SeqMeans(w, rest, q, j);
      }
      forall e | e in next ensures e <= |w.s.text| {
        var q :| q in here && Means(w, rest[0].plan, q, e);
        MeansBounds(w, rest[0].plan, q, e);
      }
    }

    /** Positions reachable from `i` by at most `k` iterations of `x`, any number for `None`. */
    method StarEnds(x: Plan, k: Option<nat>, i: nat, caps: Caps) returns (outcome: Outcome, reached: seq<nat>)
      requires Valid() && x.prog < |progs| && i <= |w.s.text| && Clean(caps)
      modifies search, this`cache
      ensures Valid() && (outcome == Overflow ==> search.budget == 0)
      ensures outcome == Done ==> Ascending(reached) && forall e :: e in reached <==> IterMeans(w, x, 0, k, i, e)
    {
      var limit := |w.s.text|;
      reached := [i];
      var frontier := [i];
      var round := 0;
      WithinZero(x, i);
      while frontier != [] && (k.None? || round < k.value)
        invariant Valid() && (k.Some? ==> round <= k.value)
        invariant Distinct(reached) && forall e :: e in reached ==> e <= limit
        invariant forall e :: e in frontier ==> e in reached
        invariant forall e :: e in reached <==> IterMeans(w, x, 0, Some(round), i, e)
        invariant forall e, f :: e in reached && e !in frontier && Means(w, x, e, f) ==> f in reached
        decreases limit + 1 - |reached|, |frontier|
      {
        ghost var before := reached;
        var found;
        outcome, reached, found := OneRound(x, frontier, reached, caps);
        if outcome == Overflow { return; }
        WithinStep(x, round, i, before, reached);
        FitsBelow(reached, limit);
        frontier := found;
        round := round + 1;
      }
      outcome := Done;
      if frontier == [] {
        WithinAll(x, round, k, i, reached);
      } else {
        assert k == Some(round);
      }
      reached := SortDedup(reached);
    }

    /** One iteration more from each position of `frontier`: what is reached, and what of it is new. */
    method OneRound(x: Plan, frontier: seq<nat>, before: seq<nat>, caps: Caps) returns (outcome: Outcome, reached: seq<nat>, found: seq<nat>)
      requires Valid() && x.prog < |progs| && Clean(caps)
      requires Distinct(before) && (forall e :: e in before ==> e <= |w.s.text|) && forall e :: e in frontier ==> e in before
      modifies search, this`cache
      ensures Valid() && (outcome == Overflow ==> search.budget == 0)
      ensures outcome == Done ==>
        && Distinct(reached) && (forall e :: e in reached ==> e <= |w.s.text|)
        && before <= reached && (forall e :: e in reached <==> e in before || e in found) && |reached| == |before| + |found|
        && (forall e :: e in found ==> exists p :: p in before && Means(w, x, p, e))
        && (forall p, f :: p in frontier && Means(w, x, p, f) ==> f in reached)
    {
      hide Means;
      outcome, reached, found := Done, before, [];
      for a := 0 to |frontier|
        invariant Valid() && outcome == Done
        invariant Distinct(reached) && forall e :: e in reached ==> e <= |w.s.text|
        invariant before <= reached && forall e :: e in reached <==> e in before || e in found
        invariant |reached| == |before| + |found|
        invariant forall e :: e in found ==> exists p :: p in before && Means(w, x, p, e)
        invariant forall p, f :: p in frontier[..a] && Means(w, x, p, f) ==> f in reached
      {
        var p := frontier[a];
        assert p in frontier;
        var ends;
        outcome, ends := Ends(x, p, caps);
        if outcome == Overflow { return; }
        reached, found := TakeNew(x, p, ends, before, reached, found);
        assert frontier[..a + 1] == frontier[..a] + [p];
      }
      assert frontier[..|frontier|] == frontier;
    }

    /** The ends that are past `p` and not reached yet. */
    method TakeNew(ghost x: Plan, p: nat, ends: seq<nat>, ghost before: seq<nat>, reached0: seq<nat>, found0: seq<nat>)
      returns (reached: seq<nat>, found: seq<nat>)
      requires p in before && before <= reached0 && |reached0| == |before| + |found0|
      requires Distinct(reached0) && forall e :: e in reached0 ==> e <= |w.s.text|
      requires forall e :: e in reached0 <==> e in before || e in found0
      requires forall e :: e in found0 ==> exists q :: q in before && Means(w, x, q, e)
      requires forall e :: e in ends <==> Means(w, x, p, e)
      ensures before <= reached && |reached| == |before| + |found|
      ensures Distinct(reached) && forall e :: e in reached ==> e <= |w.s.text|
      ensures forall e :: e in reached <==> e in before || e in found
      ensures forall e :: e in found ==> exists q :: q in before && Means(w, x, q, e)
      ensures (forall e :: e in reached0 ==> e in reached) && forall e :: e in ends ==> e in reached
    {
      forall e | e in ends ensures p <= e <= |w.s.text| { MeansBounds(w, x, p, e); }
      hide Means;
      reached, found := reached0, found0;
      for b := 0 to |ends|
        invariant before <= reached && |reached| == |before| + |found|
        invariant Distinct(reached) && forall e :: e in reached ==> e <= |w.s.text|
        invariant forall e :: e in reached <==> e in before || e in found
        invariant forall e :: e in found ==> exists q :: q in before && Means(w, x, q, e)
        invariant (forall e :: e in reached0 ==> e in reached) && forall e :: e in ends[..b] ==> e in reached
      {
        var e := ends[b];
        assert e in ends;
        if e > p && e !in reached {
          reached := reached + [e];
          found := found + [e];
        }
        assert e in reached;
        assert ends[..b + 1] == ends[..b] + [e];
      }
      assert ends[..|ends|] == ends;
    }

    lemma WithinZero(x: Plan, i: nat)
      requires i <= |w.s.text|
      ensures forall e :: IterMeans(w, x, 0, Some(0), i, e) <==> e == i
    {
      assert Chain(w, x, 0, i, i);
    }

    lemma WithinStep(x: Plan, round: nat, i: nat, before: seq<nat>, after: seq<nat>)
      requires forall e :: e in before <==> IterMeans(w, x, 0, Some(round), i, e)
      requires forall e :: e in before ==> e in after
      requires forall e :: e in after && e !in before ==> exists p :: p in before && Means(w, x, p, e)
      requires forall p, f :: p in before && Means(w, x, p, f) ==> f in after
      ensures forall e :: e in after <==> IterMeans(w, x, 0, Some(round + 1), i, e)
    {
      forall e | e in after ensures IterMeans(w, x, 0, Some(round + 1), i, e) {
        if e in before {
          var u :| 0 <= u <= round && Chain(w, x, u, i, e);
        } else {
          var p :| p in before && Means(w, x, p, e);
          var u :| 0 <= u <= round && Chain(w, x, u, i, p);
          ChainSnoc(w, x, u, i, p, e);
        }
      }
      forall e | IterMeans(w, x, 0, Some(round + 1), i, e) ensures e in after {
        var u :| 0 <= u <= round + 1 && Chain(w, x, u, i, e);
        if u > 0 {
          var p := ChainLast(w, x, u - 1, i, e);
          assert IterMeans(w, x, 0, Some(round), i, p);
        } else {
          assert IterMeans(w, x, 0, Some(round), i, e);
        }
      }
    }

    /** A reached set that nothing leads out of holds every number of iterations. */
    lemma WithinAll(x: Plan, round: nat, k: Option<nat>, i: nat, reached: seq<nat>)
      requires k.Some? ==> round <= k.value
      requires forall e :: e in reached <==> IterMeans(w, x, 0, Some(round), i, e)
      requires forall e, f :: e in reached && Means(w, x, e, f) ==> f in reached
      ensures forall e :: e in reached <==> IterMeans(w, x, 0, k, i, e)
    {
      forall e | e in reached ensures IterMeans(w, x, 0, k, i, e) {
        var u :| 0 <= u <= round && Chain(w, x, u, i, e);
      }
      forall e | IterMeans(w, x, 0, k, i, e) ensures e in reached {
        var u :| 0 <= u && (k.Some? ==> u <= k.value) && Chain(w, x, u, i, e);
        ChainStays(x, u, i, e, round, reached);
      }
    }

    lemma {:induction false} ChainStays(x: Plan, u: nat, i: nat, e: nat, round: nat, reached: seq<nat>)
      requires forall f :: f in reached <==> IterMeans(w, x, 0, Some(round), i, f)
      requires forall f, g :: f in reached && Means(w, x, f, g) ==> g in reached
      requires Chain(w, x, u, i, e)
      ensures e in reached
      decreases u
    {
      if u == 0 {
        assert IterMeans(w, x, 0, Some(round), i, e);
      } else {
        var p := ChainLast(w, x, u - 1, i, e);
        ChainStays(x, u - 1, i, p, round, reached);
      }
    }

    /**
     Positions `x{m,n}` can reach from `i` through `copies` copies after up to
     `more` optional ones.
     */
    method BlobEnds(x: Plan, more: Option<nat>, copies: nat, i: nat, caps: Caps) returns (outcome: Outcome, here: seq<nat>)
      requires Valid() && x.prog < |progs| && i <= |w.s.text| && Clean(caps)
      modifies search, this`cache
      ensures Valid() && (outcome == Overflow ==> search.budget == 0)
      ensures outcome == Done ==> Ascending(here)
      ensures outcome == Done ==>
        forall e :: e in here <==> IterMeans(w, x, copies, if more.Some? then Some(copies + more.value) else None, i, e)
    {
      outcome, here := StarEnds(x, more, i, caps);
      if outcome == Overflow { return; }
      assert more.Some? ==> more == Some(0 + more.value);
      for c := 0 to copies
        invariant Valid() && outcome == Done && Ascending(here)
        invariant forall e :: e in here <==> IterMeans(w, x, c, if more.Some? then Some(c + more.value) else None, i, e)
      {
        BlobBounds(x, c, if more.Some? then Some(c + more.value) else None, i, here);
        var next;
        outcome, next := NextEnds(x, here, caps);
        if outcome == Overflow { return; }
        BlobStep(x, c, more, i, here, next);
        here := next;
      }
    }

    lemma BlobBounds(x: Plan, c: nat, max: Option<nat>, i: nat, here: seq<nat>)
      requires forall e :: e in here <==> IterMeans(w, x, c, max, i, e)
      ensures forall e :: e in here ==> e <= |w.s.text|
    {
      forall e | e in here ensures e <= |w.s.text| {
        var u :| c <= u && (max.Some? ==> u <= max.value) && Chain(w, x, u, i, e);
        ChainBounds(w, x, u, i, e);
      }
    }

    lemma BlobStep(x: Plan, c: nat, more: Option<nat>, i: nat, here: seq<nat>, next: seq<nat>)
      requires forall e :: e in here <==> IterMeans(w, x, c, if more.Some? then Some(c + more.value) else None, i, e)
      requires forall e :: e in next <==> exists q :: q in here && Means(w, x, q, e)
      ensures forall e :: e in next <==> IterMeans(w, x, c + 1, if more.Some? then Some(c + 1 + more.value) else None, i, e)
    {
      var max, max' := if more.Some? then Some(c + more.value) else None, if more.Some? then Some(c + 1 + more.value) else None;
      forall e | e in next ensures IterMeans(w, x, c + 1, max', i, e) {
        var q :| q in here && Means(w, x, q, e);
        var u :| c <= u && (max.Some? ==> u <= max.value) && Chain(w, x, u, i, q);
        ChainSnoc(w, x, u, i, q, e);
      }
      forall e | IterMeans(w, x, c + 1, max', i, e) ensures e in next {
        var u :| c + 1 <= u && (max'.Some? ==> u <= max'.value) && Chain(w, x, u, i, e);
        var q := ChainLast(w, x, u - 1, i, e);
        assert IterMeans(w, x, c, max, i, q);
      }
    }

    lemma ZapIsClean(p: Plan, caps: Caps)
      requires Valid() && Coherent(w, p) && Clean(caps)
      ensures Clean(Zap(p, caps)) && Roomy(Groups(p), caps) && Touches(Groups(p), caps, Zap(p, caps))
    {
      CoherentGroups(w, p);
      ZapClears(p, caps);
    }

    /** Assign the sub-matches inside `[i, j)`, or report that it does not dissect. */
    method Go(p: Plan, i: nat, j: nat, caps: Caps) returns (outcome: Outcome, ok: bool, out: Caps)
      requires Valid() && Coherent(w, p) && i <= j <= |w.s.text| && Clean(caps)
      modifies search, this`cache
      ensures Valid() && (outcome == Overflow ==> search.budget == 0)
      ensures outcome == Done ==>
        && (ok <==> Good(w, p, i, j))
        && out == (if ok then Captured(w, p, i, j, caps) else caps)
        && Clean(out)
      decreases p, 0
    {
      outcome, ok, out := Done, true, caps;
      match p.kind
      case Leaf =>
      case Capture(g, x) =>
        var held := (caps[2 * g], caps[2 * g + 1]);
        out := SetSpan(caps, g, Some(i), Some(j));
        outcome, ok, out := Go(x, i, j, out);
        if outcome == Done && !ok {
          out := SetSpan(out, g, held.0, held.1);
          assert out == caps;
        }
      case Seq(elems) => outcome, ok, out := Sequence(elems, i, j, caps);
      case Choice(branches) => outcome, ok, out := FirstBranch(branches, i, j, caps);
      case Iter(x, min, max, greedy, shorter) =>
        if min == 0 {
          outcome, ok, out := Citer(x, min, max, shorter, i, j, caps);
        } else {
          outcome, ok, out := LastCopy(x, min, max, greedy, shorter, p.prog, i, j, caps);
        }
    }

    method Sequence(elems: seq<Elem>, i: nat, j: nat, caps: Caps) returns (outcome: Outcome, ok: bool, out: Caps)
      requires Valid() && (forall e :: e in elems ==> Coherent(w, e.plan)) && i <= j <= |w.s.text| && Clean(caps)
      modifies search, this`cache
      ensures Valid() && (outcome == Overflow ==> search.budget == 0)
      ensures outcome == Done ==>
        && (ok <==> GoodSeq(w, elems, i, j))
        && out == (if ok then CapturedSeq(w, elems, i, j, caps) else caps)
        && Clean(out)
      decreases elems, 1
    {
      outcome, ok, out := Done, false, caps;
      if elems == [] { return Done, i == j, caps; }
      var first, rest := elems[0], elems[1..];
      assert first in elems;
      if rest == [] {
        outcome, ok := Exact(first.plan, i, j, caps);
        if outcome == Overflow || !ok { return; }
        outcome, ok, out := GoElem(first, i, j, caps);
        return;
      }
      var ends;
      outcome, ends := Ends(first.plan, i, caps);
      if outcome == Overflow { return; }
      var candidates := Order(ends, first.shorter);
      for k := 0 to |candidates|
        invariant Valid() && outcome == Done && !ok && out == caps
        invariant forall q :: GoodEnd(w, elems, i, j, q) ==> q !in candidates[..k]
      {
        var m := candidates[k];
        assert m in ends;
        assert candidates[..k + 1] == candidates[..k] + [m];
        if m > j { continue; }
        MeansBounds(w, first.plan, i, m);
        var possible;
        outcome, possible := RestExact(rest, m, j, caps);
        if outcome == Overflow { return; }
        if !possible { continue; }
        var made;
        outcome, ok, made := GoElem(first, i, m, caps);
        if outcome == Overflow { return; }
        if ok {
          outcome, ok, made := Sequence(rest, m, j, made);
          if outcome == Overflow { return; }
          if ok {
            assert BestEnd(w, elems, i, j, m) by {
              forall q | GoodEnd(w, elems, i, j, q) ensures Prefers(first.shorter, m, q) {
                var a :| 0 <= a < |candidates| && candidates[a] == q;
                if a > k { assert Sooner(first.shorter, m, q); }
              }
            }
            EndIsBest(w, elems, i, j, m, caps);
            return Done, true, made;
          }
        }
      }
      assert candidates[..|candidates|] == candidates;
      assert forall q :: !GoodEnd(w, elems, i, j, q);
      assert !HasEnd(w, elems, i, j);
    }

    method GoElem(e: Elem, i: nat, j: nat, caps: Caps) returns (outcome: Outcome, ok: bool, out: Caps)
      requires Valid() && Coherent(w, e.plan) && i <= j <= |w.s.text| && Clean(caps)
      modifies search, this`cache
      ensures Valid() && (outcome == Overflow ==> search.budget == 0)
      ensures outcome == Done ==>
        && (ok <==> GoodElem(w, e, i, j))
        && out == (if ok then CapturedElem(w, e, i, j, caps) else caps)
        && Clean(out)
      decreases e, 0
    {
      outcome, ok, out := Go(e.plan, i, j, caps);
    }

    /** The first branch that matches the span exactly and dissects. */
    method FirstBranch(branches: seq<Plan>, i: nat, j: nat, caps: Caps) returns (outcome: Outcome, ok: bool, out: Caps)
      requires Valid() && (forall b :: b in branches ==> Coherent(w, b)) && i <= j <= |w.s.text| && Clean(caps)
      modifies search, this`cache
      ensures Valid() && (outcome == Overflow ==> search.budget == 0)
      ensures outcome == Done ==>
        && (ok <==> GoodChoice(w, branches, i, j))
        && out == (if ok then CapturedChoice(w, branches, i, j, caps) else caps)
        && Clean(out)
      decreases branches, 1
    {
      outcome, ok, out := Done, false, caps;
      assert branches[0..] == branches;
      for k := 0 to |branches|
        invariant Valid() && outcome == Done && !ok && out == caps
        invariant GoodChoice(w, branches, i, j) <==> GoodChoice(w, branches[k..], i, j)
        invariant GoodChoice(w, branches, i, j) ==> CapturedChoice(w, branches, i, j, caps) == CapturedChoice(w, branches[k..], i, j, caps)
      {
        var b := branches[k];
        assert b in branches;
        assert branches[k..][0] == b && branches[k..][1..] == branches[k + 1..];
        var exact;
        outcome, exact := Exact(b, i, j, caps);
        if outcome == Overflow { return; }
        if exact {
          outcome, ok, out := Go(b, i, j, caps);
          if outcome == Overflow || ok { return; }
        }
      }
      assert branches[|branches|..] == [];
    }

    /** `x{m,n}` with a minimum: everything but the last copy matched, the last copy dissected. */
    method LastCopy(x: Plan, min: nat, max: Option<nat>, greedy: bool, ghost shorter: bool, ghost prog: nat, i: nat, j: nat, caps: Caps)
      returns (outcome: Outcome, ok: bool, out: Caps)
      requires Valid() && Coherent(w, x) && i <= j <= |w.s.text| && Clean(caps)
      requires min > 0 && (max.Some? ==> min <= max.value)
      modifies search, this`cache
      ensures Valid() && (outcome == Overflow ==> search.budget == 0)
      ensures
        var p := Plan(prog, Iter(x, min, max, greedy, shorter));
        outcome == Done ==>
          && (ok <==> Good(w, p, i, j))
          && out == (if ok then Captured(w, p, i, j, caps) else caps)
          && Clean(out)
      decreases x, 1
    {
      outcome, ok, out := Done, false, caps;
      var more := if max.Some? then Some(max.value - min) else None;
      var before;
      outcome, before := BlobEnds(x, more, min - 1, i, caps);
      if outcome == Overflow { return; }
      assert (if more.Some? then Some(min - 1 + more.value) else None)
        == (if max.Some? && max.value > 0 then Some(max.value - 1) else None);
      forall q: nat ensures GoodBlob(w, x, min, max, i, j, q) ==> q in before {
        BlobParts(w, x, min, max, i, j, q);
      }
      var candidates := Order(before, !greedy);
      for k := 0 to |candidates|
        invariant Valid() && outcome == Done && !ok && out == caps
        invariant forall q :: GoodBlob(w, x, min, max, i, j, q) ==> q !in candidates[..k]
      {
        var q := candidates[k];
        assert q in before;
        assert candidates[..k + 1] == candidates[..k] + [q];
        if q > j { continue; }
        var exact;
        outcome, exact := Exact(x, q, j, caps);
        if outcome == Overflow { return; }
        if !exact { continue; }
        ZapIsClean(x, caps);
        var made;
        outcome, ok, made := Go(x, q, j, Zap(x, caps));
        if outcome == Overflow { return; }
        BlobParts(w, x, min, max, i, j, q);
        if ok {
          assert BestBlob(w, x, min, max, greedy, i, j, q) by {
            forall r | GoodBlob(w, x, min, max, i, j, r) ensures Prefers(!greedy, q, r) {
              var a :| 0 <= a < |candidates| && candidates[a] == r;
              if a > k { assert Sooner(!greedy, q, r); }
            }
          }
          BlobIsBest(w, x, min, max, greedy, i, j, q, shorter, prog, caps);
          return Done, true, made;
        }
      }
      assert candidates[..|candidates|] == candidates;
      assert forall q :: !GoodBlob(w, x, min, max, i, j, q);
      assert !HasBlob(w, x, min, max, i, j);
    }

    /**
     Divide `[begin, end)` into iterations of `x` by choosing end points that suit
     the body and then dissecting each, backing up over the last one when one
     fails.  A minimum above zero comes here only with a back-reference.
     */
    method Citer(x: Plan, min: nat, max: Option<nat>, shorter: bool, begin: nat, end: nat, caps: Caps)
      returns (outcome: Outcome, ok: bool, out: Caps)
      requires Valid() && Coherent(w, x) && begin <= end <= |w.s.text| && Clean(caps)
      requires min == 0 && (max.Some? ==> max.value > 0)
      modifies search, this`cache
      ensures Valid() && (outcome == Overflow ==> search.budget == 0)
      ensures outcome == Done ==>
        && (ok <==> begin == end || Divides(w, x, shorter, MaxMatches(max, begin, end), begin, end))
        && out == (if !ok || begin == end then caps
                   else Captured(w, x, LastStart(w, x, shorter, MaxMatches(max, begin, end), begin, end), end, Zap(x, caps)))
        && Clean(out)
      decreases x, 4
    {
      outcome, ok, out := Done, false, caps;
      var minMatches := min;
      if minMatches == 0 {
        if begin == end { return Done, true, caps; }
        minMatches := 1;
      }
      var maxMatches := end - begin;
      if max.Some? && max.value < maxMatches { maxMatches := max.value; }
      if maxMatches < minMatches { maxMatches := minMatches; }
      assert maxMatches == MaxMatches(max, begin, end);
      var endpts: seq<nat> := seq(maxMatches + 1, _ => begin);
      var nverified: nat, k: nat, limit: nat := 0, 1, if shorter then begin else end;
      TurningStart(x, shorter, maxMatches, begin, end, endpts, caps);
      hide Turning, Divides, Measure, Coherent, Captured, LastStart;
      while k > 0
        invariant Valid() && outcome == Done && !ok && |endpts| == maxMatches + 1 && k <= maxMatches
        invariant Turning(x, shorter, maxMatches, begin, end, endpts, nverified, k, limit, caps, out)
        decreases if k == 0 then 0 else 1 + Measure(shorter, maxMatches, begin, end, endpts, k, limit), maxMatches - k
      {
        outcome, ok, endpts, nverified, k, limit, out :=
          Turn(x, shorter, maxMatches, minMatches, begin, end, endpts, nverified, k, limit, caps, out);
        if outcome == Overflow || ok { return; }
      }
      TurningEnd(x, shorter, maxMatches, begin, end, endpts, nverified, k, limit, caps, out);
      out := caps;
    }

    /**
     The search of end points between two turns: the one at level `k` is to be
     tried, or the search has ended and there is no division.
     */
    ghost predicate Turning(x: Plan, shorter: bool, m: nat, begin: nat, end: nat, endpts: seq<nat>, nverified: nat, k: nat, limit: nat, caps: Caps, held: Caps) {
      && Clean(held) && Touches(Groups(x), caps, held)
      && |endpts| == m + 1 && k <= m
      && (k == 0 ==> !Divides(w, x, shorter, m, begin, end))
      && (k > 0 ==> Trying(w, x, shorter, m, begin, end, endpts, k, limit) && Verified(x, endpts, nverified, k))
    }

    lemma TurningStart(x: Plan, shorter: bool, m: nat, begin: nat, end: nat, endpts: seq<nat>, caps: Caps)
      requires begin < end && m > 0 && |endpts| == m + 1 && endpts[0] == begin && Clean(caps)
      ensures Turning(x, shorter, m, begin, end, endpts, 0, 1, if shorter then begin else end, caps, caps)
    {
      hide Trying, Divides;
      Start(w, x, shorter, m, begin, end, endpts);
      TouchesNothing(x, caps);
    }

    lemma TurningEnd(x: Plan, shorter: bool, m: nat, begin: nat, end: nat, endpts: seq<nat>, nverified: nat, k: nat, limit: nat, caps: Caps, held: Caps)
      requires Turning(x, shorter, m, begin, end, endpts, nverified, k, limit, caps, held)
      ensures k == 0 ==> !Divides(w, x, shorter, m, begin, end)
    {
      hide Divides;
    }

    /** A turn lowers the measure, or goes one level deeper without raising it. */
    ghost predicate Lowered(shorter: bool, m: nat, begin: nat, end: nat, endpts0: seq<nat>, k0: nat, limit0: nat, endpts: seq<nat>, k: nat, limit: nat)
    {
      begin <= end && |endpts0| == |endpts| == m + 1 && (k > 0 ==>
        && Measure(shorter, m, begin, end, endpts, k, limit) <= Measure(shorter, m, begin, end, endpts0, k0, limit0)
        && (k != k0 + 1 ==> Measure(shorter, m, begin, end, endpts, k, limit) < Measure(shorter, m, begin, end, endpts0, k0, limit0)))
    }

    /** One turn of the search: choose the end point of a level, then go deeper, finish or back up. */
    method Turn(x: Plan, shorter: bool, m: nat, minMatches: nat, ghost begin: nat, end: nat, endpts0: seq<nat>, done: nat, tried: nat, limit0: nat, caps: Caps, held: Caps)
      returns (outcome: Outcome, ok: bool, endpts: seq<nat>, nverified: nat, k: nat, limit: nat, out: Caps)
      requires Valid() && Coherent(w, x) && begin < end <= |w.s.text| && Clean(caps) && minMatches == 1 && 0 < tried
      requires Turning(x, shorter, m, begin, end, endpts0, done, tried, limit0, caps, held)
      modifies search, this`cache
      ensures Valid() && (outcome == Overflow ==> search.budget == 0)
      ensures outcome == Done && ok ==>
        && Divides(w, x, shorter, m, begin, end)
        && Clean(out) && out == Captured(w, x, LastStart(w, x, shorter, m, begin, end), end, Zap(x, caps))
      ensures outcome == Done && !ok ==>
        && k <= m && Turning(x, shorter, m, begin, end, endpts, nverified, k, limit, caps, out)
        && Lowered(shorter, m, begin, end, endpts0, tried, limit0, endpts, k, limit)
      decreases x, 3
    {
      ok, endpts, nverified, k, limit, out := false, endpts0, done, tried, limit0, held;
      TurningIs(x, shorter, m, begin, end, endpts, nverified, k, limit, caps, out);
      hide *;
      var e: Option<nat>;
      outcome, e := Candidate(x, shorter, m, minMatches, begin, end, endpts, k, limit, caps);
      if outcome == Overflow { return; }
      if e == None {
        NothingChosen(x, shorter, m, begin, end, endpts, nverified, k, limit);
        k := k - 1;
      } else {
        endpts := endpts[k := e.value];
        nverified := if nverified < k - 1 then nverified else k - 1;
        ChosenPath(w, x, shorter, m, begin, end, endpts, k);
        StillVerified(x, endpts0, done, nverified, k, e.value);
        var left, empty := end - endpts[k], endpts[k] == endpts[k - 1];
        if left != 0 && k < m && (shorter || !empty || (k < minMatches && left <= minMatches - k)) {
          limit := if shorter then endpts[k] else end;
          WentDeeper(x, shorter, m, begin, end, endpts0, k, limit0, e.value, nverified, caps, out);
          k := k + 1;
          return;
        }
        outcome, ok, k, nverified, out := Settle(x, shorter, m, begin, end, endpts, nverified, k, caps, out);
        if outcome == Overflow || ok { return; }
      }
      ghost var settled := k;
      k, limit := BackUp(x, shorter, m, minMatches, begin, end, endpts, k, limit);
      BackedUp(x, shorter, m, begin, end, endpts0, done, tried, limit0, endpts, nverified, settled, k, limit, caps, held, out);
    }

    lemma TurningIs(x: Plan, shorter: bool, m: nat, begin: nat, end: nat, endpts: seq<nat>, nverified: nat, k: nat, limit: nat, caps: Caps, held: Caps)
      requires Turning(x, shorter, m, begin, end, endpts, nverified, k, limit, caps, held) && k > 0
      ensures Clean(held) && Touches(Groups(x), caps, held) && |endpts| == m + 1 && k <= m
      ensures Trying(w, x, shorter, m, begin, end, endpts, k, limit) && Verified(x, endpts, nverified, k)
      ensures begin <= endpts[k - 1] < end && begin <= limit <= end
    {
      TryingBounds(w, x, shorter, m, begin, end, endpts, k, limit);
      hide *;
    }

    /** A level with nothing left is given up. */
    lemma NothingChosen(x: Plan, shorter: bool, m: nat, begin: nat, end: nat, endpts: seq<nat>, nverified: nat, k: nat, limit: nat)
      requires Trying(w, x, shorter, m, begin, end, endpts, k, limit) && Verified(x, endpts, nverified, k)
      requires RuledOut(w, x, shorter, m, end, endpts, k)
      ensures k > 0 && Verified(x, endpts, nverified, k - 1)
      ensures if k == 1 then !Divides(w, x, shorter, m, begin, end) else Backing(w, x, shorter, m, begin, end, endpts, k - 1)
    {
      TryingBounds(w, x, shorter, m, begin, end, endpts, k, limit);
      hide RuledOut, Ruled, RuledTo, Divides, Means, Good;
      GiveUp(w, x, shorter, m, begin, end, endpts, k);
    }

    /** The end point chosen leaves room for another level. */
    lemma WentDeeper(x: Plan, shorter: bool, m: nat, begin: nat, end: nat, endpts0: seq<nat>, k: nat, limit0: nat, e: nat, nverified: nat, caps: Caps, held: Caps)
      requires begin < end && |endpts0| == m + 1 && 1 <= k < m && begin <= limit0 <= end
      requires Chosen(w, x, shorter, m, begin, end, endpts0[k := e], k) && Prefers(shorter, limit0, e)
      requires begin <= endpts0[k - 1] && e != end && (shorter || e != endpts0[k - 1])
      requires Verified(x, endpts0[k := e], nverified, k + 1) && Clean(held) && Touches(Groups(x), caps, held)
      ensures
        var (endpts, limit) := (endpts0[k := e], if shorter then e else end);
        && Turning(x, shorter, m, begin, end, endpts, nverified, k + 1, limit, caps, held)
        && Lowered(shorter, m, begin, end, endpts0, k, limit0, endpts, k + 1, limit)
    {
      var endpts := endpts0[k := e];
      ChosenIs(x, shorter, m, begin, end, endpts, k);
      hide Chosen, Trying, Divides, Verified, Measure;
      Deeper(w, x, shorter, m, begin, end, endpts, k);
      DeeperKeeps(shorter, m, begin, end, endpts0, k, limit0, e);
    }

    lemma ChosenIs(x: Plan, shorter: bool, m: nat, begin: nat, end: nat, endpts: seq<nat>, k: nat)
      requires Chosen(w, x, shorter, m, begin, end, endpts, k)
      ensures 1 <= k <= m && |endpts| == m + 1 && endpts[k - 1] <= endpts[k] <= end && (shorter ==> endpts[k - 1] < endpts[k])
    {
      hide Ruled, Means, ShortestFrom;
    }

    /** Backing up has lowered the measure, or ended the search. */
    lemma BackedUp(x: Plan, shorter: bool, m: nat, begin: nat, end: nat, endpts0: seq<nat>, done: nat, tried: nat, limit0: nat,
                   endpts: seq<nat>, nverified: nat, settled: nat, k: nat, limit: nat, caps: Caps, held: Caps, out: Caps)
      requires Turning(x, shorter, m, begin, end, endpts0, done, tried, limit0, caps, held) && tried > 0 && begin < end
      requires Clean(out) && Touches(Groups(x), caps, out) && k <= settled <= tried <= m && |endpts| == m + 1
      requires k == 0 ==> !Divides(w, x, shorter, m, begin, end)
      requires k > 0 ==> Trying(w, x, shorter, m, begin, end, endpts, k, limit) && Sooner(shorter, endpts[k], limit)
      requires settled > 0 ==> Verified(x, endpts, nverified, settled)
      requires endpts == endpts0[tried := endpts[tried]] && (settled == tried ==> Prefers(shorter, limit0, endpts[tried]))
      ensures |endpts0| == m + 1 && Turning(x, shorter, m, begin, end, endpts, nverified, k, limit, caps, out)
      ensures Lowered(shorter, m, begin, end, endpts0, tried, limit0, endpts, k, limit)
    {
      TurningIs(x, shorter, m, begin, end, endpts0, done, tried, limit0, caps, held);
      hide Trying, Divides, Verified, Measure, Clean, Touches;
      if k > 0 {
        StillDropped(x, endpts, nverified, settled, k);
        MeasureBack(x, shorter, m, begin, end, endpts0, tried, limit0, endpts, k, limit);
      }
    }

    lemma TouchesNothing(x: Plan, caps: Caps)
      ensures Touches(Groups(x), caps, caps)
    {
    }

    /** The first `nverified` iterations have been dissected. */
    ghost predicate Verified(x: Plan, endpts: seq<nat>, nverified: nat, k: nat) {
      forall t :: 1 <= t <= nverified && t < k && t < |endpts| ==> Good(w, x, endpts[t - 1], endpts[t])
    }

    lemma StillVerified(x: Plan, endpts: seq<nat>, done: nat, nverified: nat, k: nat, e: nat)
      requires nverified <= done && nverified < k < |endpts| && Verified(x, endpts, done, k)
      ensures Verified(x, endpts[k := e], nverified, k + 1)
    {
    }

    lemma StillDropped(x: Plan, endpts: seq<nat>, nverified: nat, k: nat, k': nat)
      requires Verified(x, endpts, nverified, k) && k' <= k
      ensures Verified(x, endpts, nverified, k')
    {
    }

    /** Backing up to a level that has a less preferred candidate lowers the measure. */
    lemma MeasureBack(x: Plan, shorter: bool, m: nat, begin: nat, end: nat, endpts: seq<nat>, k: nat, limit: nat, endpts': seq<nat>, k': nat, limit': nat)
      requires Trying(w, x, shorter, m, begin, end, endpts, k, limit) && Trying(w, x, shorter, m, begin, end, endpts', k', limit')
      requires 1 <= k' <= k && k < |endpts'| && Sooner(shorter, endpts'[k'], limit')
      requires k < |endpts| && endpts' == endpts[k := endpts'[k]] && (k' < k || Prefers(shorter, limit, endpts'[k]))
      ensures begin <= end && |endpts| == |endpts'| == m + 1
      ensures Measure(shorter, m, begin, end, endpts', k', limit') < Measure(shorter, m, begin, end, endpts, k, limit)
    {
      TryingBounds(w, x, shorter, m, begin, end, endpts, k, limit);
      TryingBounds(w, x, shorter, m, begin, end, endpts', k', limit');
      hide Trying, Measure;
      MeasureFrame(shorter, m, begin, end, endpts, k, limit, endpts'[k]);
      BackLowers(shorter, m, begin, end, endpts', k, limit, k', limit');
    }

    /** An end point at which the search cannot go on: the end of the span, or a reason to back up. */
    method Settle(x: Plan, shorter: bool, m: nat, ghost begin: nat, end: nat, endpts: seq<nat>, done: nat, from: nat, ghost caps: Caps, held: Caps)
      returns (outcome: Outcome, ok: bool, k: nat, nverified: nat, out: Caps)
      requires Valid() && Coherent(w, x) && begin < end <= |w.s.text| && Clean(caps) && Clean(held) && Touches(Groups(x), caps, held)
      requires Chosen(w, x, shorter, m, begin, end, endpts, from) && from <= m && |endpts| == m + 1
      requires done < from && Verified(x, endpts, done, from + 1)
      requires endpts[from] != end && from < m ==> !shorter && endpts[from] == endpts[from - 1]
      modifies search, this`cache
      ensures Valid() && (outcome == Overflow ==> search.budget == 0)
      ensures outcome == Done ==>
        && Clean(out) && Touches(Groups(x), caps, out)
        && (ok ==>
             && Divides(w, x, shorter, m, begin, end)
             && out == Captured(w, x, LastStart(w, x, shorter, m, begin, end), end, Zap(x, caps)))
        && (!ok ==>
             && k <= from
             && (k == 0 ==> !Divides(w, x, shorter, m, begin, end))
             && (k > 0 ==> Backing(w, x, shorter, m, begin, end, endpts, k) && Verified(x, endpts, nverified, k)))
      decreases x, 2
    {
      outcome, ok, k, nverified, out := Done, false, from, done, held;
      ChosenPath(w, x, shorter, m, begin, end, endpts, k);
      hide Chosen, RuledOut, Backing, Path, Means, Good, FirstEnd, Divides, Touches, Coherent, AllGood, Captured, LastStart, Verified;
      if endpts[k] != end {
        if k >= m {
          NoRoom(w, x, shorter, m, begin, end, endpts, k);
          GiveUp(w, x, shorter, m, begin, end, endpts, k);
          k := k - 1;
        } else {
          EmptyIteration(w, x, m, begin, end, endpts, k);
        }
        StillDropped(x, endpts, nverified, from + 1, k);
      } else {
        outcome, nverified, out := Verify(x, endpts, begin, end, m, nverified, k, caps, out);
        if outcome == Overflow { return; }
        if nverified == k {
          Walk(w, x, shorter, m, begin, end, endpts, k, 0);
          ok := true;
        } else {
          Unverified(w, x, shorter, m, begin, end, endpts, k);
        }
      }
    }

    /** The preferred end point of level `k` within the limit, or none when the level has nothing left. */
    method Candidate(x: Plan, shorter: bool, ghost m: nat, minMatches: nat, ghost begin: nat, end: nat, endpts: seq<nat>, k: nat, limit0: nat, caps: Caps)
      returns (outcome: Outcome, e: Option<nat>)
      requires Valid() && Coherent(w, x) && end <= |w.s.text| && Clean(caps) && minMatches == 1
      requires Trying(w, x, shorter, m, begin, end, endpts, k, limit0)
      modifies search, this`cache
      ensures Valid() && (outcome == Overflow ==> search.budget == 0)
      ensures outcome == Done && e == None ==> RuledOut(w, x, shorter, m, end, endpts, k)
      ensures outcome == Done && e.Some? ==> Chosen(w, x, shorter, m, begin, end, endpts[k := e.value], k) && Prefers(shorter, limit0, e.value)
    {
      TryingBounds(w, x, shorter, m, begin, end, endpts, k, limit0);
      hide Trying, RuledOut, Chosen, Means, Coherent;
      var limit := limit0;
      // A zero-length iteration is tried only when it is needed.
      if shorter && limit == endpts[k - 1] && limit != end && (k >= minMatches || minMatches - k < end - limit) {
        limit := limit + 1;
      }
      CoherentProg(w, x);
      if shorter {
        outcome, e := ShortestEnd(x, endpts[k - 1], limit, caps);
        if outcome == Done && e.Some? && e.value > end { e := None; }
      } else {
        outcome, e := LongestEnd(x, endpts[k - 1], limit, caps);
      }
      if outcome == Overflow { return; }
      if e == None {
        NoneLeft(w, x, shorter, m, begin, end, endpts, k, limit0);
      } else {
        MeansBounds(w, x, endpts[k - 1], e.value);
        Take(w, x, shorter, m, begin, end, endpts, k, limit0, e.value);
      }
    }

    /** Dissect the iterations not dissected yet, each from captures that hold nothing of the body. */
    method Verify(x: Plan, endpts: seq<nat>, ghost begin: nat, end: nat, ghost m: nat, done: nat, k: nat, ghost caps: Caps, held: Caps)
      returns (outcome: Outcome, nverified: nat, out: Caps)
      requires Valid() && Coherent(w, x) && end <= |w.s.text| && Clean(caps) && Clean(held) && Touches(Groups(x), caps, held)
      requires Path(w, x, m, begin, end, endpts, k) && endpts[k] == end
      requires done < k && Verified(x, endpts, done, k)
      modifies search, this`cache
      ensures Valid() && (outcome == Overflow ==> search.budget == 0)
      ensures outcome == Done ==>
        && nverified <= k && Clean(out) && Touches(Groups(x), caps, out) && Verified(x, endpts, nverified, k)
        && (nverified == k <==> AllGood(w, x, endpts, k))
        && (nverified == k ==> Good(w, x, endpts[k - 1], end) && out == Captured(w, x, endpts[k - 1], end, Zap(x, caps)))
      decreases x, 1
    {
      outcome, nverified, out := Done, done, held;
      CoherentGroups(w, x);
      var i := nverified + 1;
      while i <= k
        invariant Valid() && outcome == Done && i == nverified + 1 && nverified <= k
        invariant Clean(out) && Touches(Groups(x), caps, out)
        invariant AllGood(w, x, endpts, nverified)
        invariant i > k ==> Good(w, x, endpts[k - 1], end) && out == Captured(w, x, endpts[k - 1], end, Zap(x, caps))
      {
        ZapIsClean(x, out);
        ZapForgets(x, caps, out);
        ZapIsClean(x, caps);
        out := Zap(x, out);
        var ok;
        outcome, ok, out := Go(x, endpts[i - 1], endpts[i], out);
        if outcome == Overflow { return; }
        if !ok { return; }
        CapturedTouches(w, x, endpts[i - 1], endpts[i], Zap(x, caps));
        nverified := i;
        i := i + 1;
      }
    }

    /**
     Consider a less preferred version of the current iteration, giving up levels
     that have none.
     */
    method BackUp(x: Plan, shorter: bool, ghost m: nat, minMatches: nat, ghost begin: nat, end: nat, endpts: seq<nat>, from: nat, limit0: nat)
      returns (k: nat, limit: nat)
      requires minMatches == 1 && begin < end && m > 0 && |endpts| == m + 1
      requires from > 0 ==> Backing(w, x, shorter, m, begin, end, endpts, from)
      requires from == 0 ==> !Divides(w, x, shorter, m, begin, end)
      ensures k <= from
      ensures k > 0 ==> Trying(w, x, shorter, m, begin, end, endpts, k, limit) && Sooner(shorter, endpts[k], limit)
      ensures k == 0 ==> !Divides(w, x, shorter, m, begin, end)
    {
      k, limit := from, limit0;
      while k > 0
        invariant k <= from
        invariant k > 0 ==> Backing(w, x, shorter, m, begin, end, endpts, k)
        invariant k == 0 ==> !Divides(w, x, shorter, m, begin, end)
      {
        if shorter {
          if endpts[k] < end {
            limit := endpts[k] + 1;
            LessPreferred(w, x, shorter, m, begin, end, endpts, k, limit);
            return;
          }
        } else {
          var prev := endpts[k - 1];
          if endpts[k] > prev {
            limit := endpts[k] - 1;
            if limit > prev || (limit == prev && k <= minMatches) {
              LessPreferred(w, x, shorter, m, begin, end, endpts, k, limit);
              return;
            }
          }
        }
        LastPreferred(w, x, shorter, m, begin, end, endpts, k);
        GiveUp(w, x, shorter, m, begin, end, endpts, k);
        k := k - 1;
      }
    }
  }

  ghost predicate Distinct(s: seq<nat>) {
    forall j, k :: 0 <= j < k < |s| ==> s[j] != s[k]
  }

  function Elements(s: seq<nat>): set<nat> {
    set e | e in s
  }

  /** Distinct positions up to `limit` are at most `limit + 1`. */
  lemma FitsBelow(s: seq<nat>, limit: nat)
    requires Distinct(s) && forall e :: e in s ==> e <= limit
    ensures |s| <= limit + 1
  {
    DistinctSize(s);
    SubsetSize(Elements(s), UpTo(limit));
  }

  lemma {:induction false} DistinctSize(s: seq<nat>)
    requires Distinct(s)
    ensures |Elements(s)| == |s|
    decreases |s|
  {
    if s != [] {
      var rest, last := s[..|s| - 1], s[|s| - 1];
      DistinctSize(rest);
      assert s == rest + [last];
      assert last !in rest;
      assert Elements(s) == Elements(rest) + {last};
    }
  }
}
