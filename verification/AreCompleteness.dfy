/**
 Which spans the engine can take apart.

 The rules of `AreDissection` are those of the search, with its plan and its
 numbers of iterations; `Dissects` says the same of a tree and a subject.  A span
 that is matched can always be taken apart, but for one case: an iteration whose
 body prefers its shortest match and which may not be repeated often enough to
 cover the span a character at a time.
 */
module AreCompleteness {
  import opened Wrappers
  import opened AreSyntax
  import opened AreDissection
  import opened ArePlan
  import opened AreParse
  import opened AreRules

  // ----- the search and the rules take the same spans apart

  /** A plan matches what a tree matches, and takes apart what it does. */
  ghost predicate Alike(w: World, p: Plan, x: Node) {
    && (forall a, b :: Means(w, p, a, b) <==> Matches(w.s, x, a, b))
    && (forall a, b :: Means(w, p, a, b) && Good(w, p, a, b) <==> Dissects(w.s, x, a, b))
  }

  lemma DivisionOfOne(s: Subject, x: Node, m: nat, ends: seq<nat>, i: nat, j: nat)
    requires m > 0 && ends == [i, j] && i < j && Dissects(s, x, i, j)
    requires Reluctant(Choices(x)) && m == 1 ==> NoShorter(s, x, i, j)
    ensures Division(s, x, m, ends, i, j)
  {
    assert ends[1..] == [j];
  }

  lemma DivisionOfMore(s: Subject, x: Node, m: nat, rest: seq<nat>, i: nat, e: nat, j: nat)
    requires m > 1 && i < e && Dissects(s, x, i, e) && Division(s, x, m - 1, rest, e, j)
    ensures Division(s, x, m, [i] + rest, i, j)
  {
    var ends := [i] + rest;
    assert ends[1..] == rest;
    if |ends| == m + 1 { assert ends[m - 1] == rest[m - 2]; }
  }

  /** The first end of a division, and what it leaves to divide. */
  lemma FirstOfDivision(s: Subject, x: Node, m: nat, ends: seq<nat>, i: nat, j: nat)
    requires Division(s, x, m, ends, i, j)
    ensures i < ends[1] <= j && Dissects(s, x, i, ends[1])
    ensures ends[1] == j ==> ends == [i, j] && (Reluctant(Choices(x)) && m == 1 ==> NoShorter(s, x, i, j))
    ensures ends[1] < j ==> m > 1 && Division(s, x, m - 1, ends[1..], ends[1], j)
  {
    IteratedRises(s, x, ends);
    if |ends| > 2 {
      IteratedRises(s, x, ends[1..]);
      if |ends| == m + 1 { assert ends[1..][m - 2] == ends[m - 1]; }
    } else {
      assert ends == [i, j];
    }
  }

  /** Exactly the divisions of the rules are found, by up to `m` iterations from the left. */
  lemma {:induction false} DividesExactly(w: World, p: Plan, x: Node, m: nat, i: nat, j: nat)
    requires Alike(w, p, x) && i < j
    ensures Divides(w, p, Reluctant(Choices(x)), m, i, j) <==> Divisible(w.s, x, m, i, j)
    decreases m
  {
    hide Means, Good, Matches, Dissects, Choices, Iterated;
    var shorter := Reluctant(Choices(x));
    if Divides(w, p, shorter, m, i, j) {
      var e := FirstOf(w, p, shorter, m, i, j);
      var ends := DivisionFrom(w, p, x, m, i, j, e);
    }
    if Divisible(w.s, x, m, i, j) {
      var ends := SomeDivision(w.s, x, m, i, j);
      FirstOfDivision(w.s, x, m, ends, i, j);
      var e := ends[1];
      if e < j {
        var rest := m - 1;
        DividesExactly(w, p, x, rest, e, j);
        assert Divisible(w.s, x, rest, e, j);
      }
      EndsAreFirst(w, p, x, m, i, j, e);
    }
  }

  /** A first end of the search begins a division of the rules. */
  lemma {:induction false} DivisionFrom(w: World, p: Plan, x: Node, m: nat, i: nat, j: nat, e: nat) returns (ends: seq<nat>)
    requires Alike(w, p, x) && FirstEnd(w, p, Reluctant(Choices(x)), m, i, j, e)
    ensures Division(w.s, x, m, ends, i, j) && ends[1] == e
    decreases m
  {
    hide Means, Good, Matches, Dissects, Choices, Iterated, Division;
    var shorter := Reluctant(Choices(x));
    assert Dissects(w.s, x, i, e);
    if e == j {
      ends := [i, j];
      DivisionOfOne(w.s, x, m, ends, i, j);
    } else {
      var f := FirstOf(w, p, shorter, m - 1, e, j);
      var rest := DivisionFrom(w, p, x, m - 1, e, j, f);
      DivisionOfMore(w.s, x, m, rest, i, e, j);
      ends := [i] + rest;
      assert rest[0] == e by { DivisionEnds(w.s, x, m - 1, rest, e, j); }
    }
  }

  lemma DivisionEnds(s: Subject, x: Node, m: nat, ends: seq<nat>, i: nat, j: nat)
    requires Division(s, x, m, ends, i, j)
    ensures |ends| >= 2 && ends[0] == i && ends[|ends| - 1] == j
  {
  }

  lemma EndsAreFirst(w: World, p: Plan, x: Node, m: nat, i: nat, j: nat, e: nat)
    requires Alike(w, p, x) && m > 0 && i < e <= j && Dissects(w.s, x, i, e)
    requires if e == j then Reluctant(Choices(x)) && m == 1 ==> NoShorter(w.s, x, i, j)
             else m > 1 && Divides(w, p, Reluctant(Choices(x)), m - 1, e, j)
    ensures FirstEnd(w, p, Reluctant(Choices(x)), m, i, j, e)
  {
    hide Means, Good, Matches, Dissects, Choices;
    assert Means(w, p, i, e) && Good(w, p, i, e);
  }

  /** A span is taken apart by the plan of a tree exactly when the rules take it apart. */
  lemma {:induction false} GoodIsDissects(w: World, p: Plan, n: Node)
    requires PlanOf(w.sources, p, n) && WellFormed(n, w.groups)
    ensures Alike(w, p, n)
    decreases n, 0
  {
    PlanIsCoherent(w, p, n);
    forall i, j | Matches(w.s, n, i, j) ensures Good(w, p, i, j) <==> Dissects(w.s, n, i, j) {
      if Captures(n) {
        match n
        case Group(None, x) => GoodIsDissects(w, p, x);
        case Group(Some(g), x) => GoodIsDissects(w, p.kind.inner, x);
        case Concat(items) => ElemsDissect(w, p.kind.elems, items, i, j);
        case Alt(branches) => BranchesDissect(w, p.kind.branches, branches, i, j);
        case Repeat(x, min, max, greedy, _) =>
          GoodIsDissects(w, p.kind.body, x);
          IterDissects(w, p, n, i, j);
        case _ =>
      }
    }
  }

  /** The case of `GoodIsDissects` for a quantifier. */
  lemma IterDissects(w: World, p: Plan, n: Node, i: nat, j: nat)
    requires n.Repeat? && Captures(n) && PlanOf(w.sources, p, n) && WellFormed(n, w.groups) && Matches(w.s, n, i, j)
    requires p.kind.Iter? && Alike(w, p.kind.body, n.inner)
    ensures Good(w, p, i, j) <==> Dissects(w.s, n, i, j)
  {
    var x, y := n.inner, p.kind.body;
    FirstChoiceDecides(x);
    assert p.kind == Iter(y, n.min, n.max, n.greedy, Reluctant(Choices(x)));
    hide Alike, PlanOf, WellFormed, Matches, PrefOf, Choices, Captures;
    if n.min == 0 {
      assert i <= j by { CopyBounds(w.s, n, i, j); }
      var m := MaxMatches(n.max, i, j);
      if i < j { DividesExactly(w, y, x, m, i, j); }
    } else {
      BlobsAreCopies(w, y, x, n.min, n.max, i, j);
    }
  }

  lemma BlobIsCopy(w: World, y: Plan, x: Node, min: nat, max: Option<nat>, i: nat, j: nat, q: nat)
    requires Alike(w, y, x) && min > 0 && (max.Some? ==> min <= max.value)
    ensures GoodBlob(w, y, min, max, i, j, q) <==> LastCopy(w.s, x, min, max, i, j, q)
  {
    BlobParts(w, y, min, max, i, j, q);
    hide Means, Good, Matches, Dissects, GoodBlob;
    var most := if max.Some? && max.value > 0 then Some(max.value - 1) else None;
    forall k: nat ensures Chain(w, y, k, i, q) <==> Copies(w.s, x, k, i, q) { ChainIsCopies(w, y, x, k, i, q); }
    assert IterMeans(w, y, min - 1, most, i, q) <==> Reps(w.s, x, min - 1, More(min, max), i, q) by {
      if IterMeans(w, y, min - 1, most, i, q) {
        var k :| min - 1 <= k && (most.Some? ==> k <= most.value) && Chain(w, y, k, i, q);
        assert Copies(w.s, x, k, i, q);
      }
      if Reps(w.s, x, min - 1, More(min, max), i, q) {
        var k := CountOf(w.s, x, min - 1, More(min, max), i, q);
        assert Chain(w, y, k, i, q);
      }
    }
    if Dissects(w.s, x, q, j) { MeansBounds(w, y, q, j); }
  }

  lemma BlobsAreCopies(w: World, y: Plan, x: Node, min: nat, max: Option<nat>, i: nat, j: nat)
    requires Alike(w, y, x) && min > 0 && (max.Some? ==> min <= max.value)
    ensures HasBlob(w, y, min, max, i, j) <==> HasLastCopy(w.s, x, min, max, i, j)
  {
    forall q: nat ensures GoodBlob(w, y, min, max, i, j, q) <==> LastCopy(w.s, x, min, max, i, j, q) {
      BlobIsCopy(w, y, x, min, max, i, j, q);
    }
  }

  lemma {:induction false} ElemsDissect(w: World, elems: seq<Elem>, items: seq<Node>, i: nat, j: nat)
    requires ElemsOf(w.sources, elems, items) && (forall x | x in items :: WellFormed(x, w.groups)) && i <= j <= |w.s.text|
    ensures GoodSeq(w, elems, i, j) <==> DissectsSeq(w.s, items, i, j)
    decreases items, 1
  {
    if items != [] {
      forall m: nat ensures Split(w.s, items, i, j, m) <==> CanEnd(w, elems, i, j, m) {
        EndIsSplit(w, elems, items, i, j, m);
      }
      CanEndIsGood(w, elems, i, j);
    }
  }

  /** `m` can end the first of one or more elements. */
  ghost predicate CanEnd(w: World, elems: seq<Elem>, i: nat, j: nat, m: nat) {
    && elems != [] && Means(w, elems[0].plan, i, m) && GoodElem(w, elems[0], i, m) && m <= j
    && SeqMeans(w, elems[1..], m, j) && GoodSeq(w, elems[1..], m, j)
  }

  lemma CanEndIsGood(w: World, elems: seq<Elem>, i: nat, j: nat)
    requires elems != [] && j <= |w.s.text|
    ensures GoodSeq(w, elems, i, j) <==> exists m: nat :: CanEnd(w, elems, i, j, m)
    ensures |elems| > 1 ==> forall m: nat :: CanEnd(w, elems, i, j, m) <==> GoodEnd(w, elems, i, j, m)
    ensures |elems| == 1 ==> forall m: nat :: CanEnd(w, elems, i, j, m) ==> m == j
  {
    hide Means, Good, GoodElem;
    if |elems| == 1 {
      assert elems[1..] == [];
      if GoodSeq(w, elems, i, j) { assert CanEnd(w, elems, i, j, j); }
    } else {
      forall m: nat ensures CanEnd(w, elems, i, j, m) <==> GoodEnd(w, elems, i, j, m) {
      }
      assert GoodSeq(w, elems, i, j) <==> HasEnd(w, elems, i, j);
    }
  }

  lemma {:induction false} EndIsSplit(w: World, elems: seq<Elem>, items: seq<Node>, i: nat, j: nat, m: nat)
    requires items != [] && ElemsOf(w.sources, elems, items) && (forall x | x in items :: WellFormed(x, w.groups)) && j <= |w.s.text|
    ensures Split(w.s, items, i, j, m) <==> CanEnd(w, elems, i, j, m)
    decreases items, 0
  {
    var rest := items[PartLen(items)..];
    PartDissects(w, elems[0], items, i, m);
    ElemsAreCoherent(w, elems[1..], rest);
    if m <= j { ElemsDissect(w, elems[1..], rest, m, j); }
    if DissectsSeq(w.s, rest, m, j) {
      DissectsSeqMatches(w.s, rest, m, j);
      MatchesSeqBounds(w.s, rest, m, j);
    }
    hide Good, Means, Dissects, SeqMeans, GoodSeq, DissectsSeq, Captures, MatchesSeq, WellFormed, ElemOf;
  }

  lemma {:induction false} PartDissects(w: World, e: Elem, items: seq<Node>, i: nat, m: nat)
    requires items != [] && ElemOf(w.sources, e, items) && forall x | x in items :: WellFormed(x, w.groups)
    ensures Means(w, e.plan, i, m) && GoodElem(w, e, i, m) <==>
      if Captures(items[0]) then Dissects(w.s, items[0], i, m) else MatchesSeq(w.s, items[..PartLen(items)], i, m)
    decreases items[0], 2
  {
    ElemIsCoherent(w, e, items);
    if Captures(items[0]) { GoodIsDissects(w, e.plan, items[0]); }
  }

  lemma {:induction false} BranchesDissect(w: World, plans: seq<Plan>, branches: seq<Node>, i: nat, j: nat)
    requires BranchesOf(w.sources, plans, branches) && forall x | x in branches :: WellFormed(x, w.groups)
    ensures GoodChoice(w, plans, i, j) <==> exists b :: b in branches && Dissects(w.s, b, i, j)
    decreases branches, 1
  {
    if branches != [] {
      GoodIsDissects(w, plans[0], branches[0]);
      BranchesDissect(w, plans[1..], branches[1..], i, j);
      hide Good, Means, Dissects, PlanOf, WellFormed;
      assert branches == [branches[0]] + branches[1..];
    }
  }

  // ----- trees on which dissection never fails

  /**
   No repetition of something capturing that may be skipped and is limited to
   fewer than `len` copies has a body that prefers its shortest match.
   */
  predicate Free(n: Node, len: nat)
    decreases n, 0
  {
    Captures(n) ==>
      match n
      case Group(_, x) => Free(x, len)
      case Concat(items) => FreeAll(items, len)
      case Alt(branches) => FreeAll(branches, len)
      case Repeat(x, min, max, _, _) => Free(x, len) && (PrefOf(x) == Shortest && min == 0 && max.Some? ==> max.value >= len)
      case _ => true
  }

  predicate FreeAll(items: seq<Node>, len: nat)
    decreases items, 0
  {
    items != [] ==> Free(items[0], len) && FreeAll(items[1..], len)
  }

  lemma {:induction false} FreeRest(items: seq<Node>, k: nat, len: nat)
    requires FreeAll(items, len) && k <= |items|
    ensures FreeAll(items[k..], len)
    decreases k
  {
    if k > 0 {
      FreeRest(items[1..], k - 1, len);
      assert items[1..][k - 1..] == items[k..];
    }
  }

  /** Dissection is complete: a span a free tree matches can be taken apart. */
  lemma {:induction false} MatchedDissects(s: Subject, n: Node, groups: nat, i: nat, j: nat)
    requires Matches(s, n, i, j) && Free(n, |s.text|) && WellFormed(n, groups)
    ensures Dissects(s, n, i, j)
    decreases n, 0
  {
    if Captures(n) {
      match n
      case Group(_, x) => MatchedDissects(s, x, groups, i, j);
      case Concat(items) => MatchedSeqDissects(s, items, groups, i, j);
      case Alt(branches) =>
        var b :| b in branches && Matches(s, b, i, j);
        FreeBranch(branches, b, |s.text|);
        MatchedDissects(s, b, groups, i, j);
      case Repeat(x, min, max, _, _) =>
        forall a, b | Matches(s, x, a, b) ensures Dissects(s, x, a, b) {
          MatchedDissects(s, x, groups, a, b);
        }
        MatchedRepeatDissects(s, n, groups, i, j);
      case _ =>
    }
  }

  lemma {:induction false} FreeBranch(branches: seq<Node>, b: Node, len: nat)
    requires FreeAll(branches, len) && b in branches
    ensures Free(b, len)
    decreases |branches|
  {
    if b != branches[0] { FreeBranch(branches[1..], b, len); }
  }

  lemma {:induction false} MatchedSeqDissects(s: Subject, items: seq<Node>, groups: nat, i: nat, j: nat)
    requires MatchesSeq(s, items, i, j) && FreeAll(items, |s.text|) && forall x | x in items :: WellFormed(x, groups)
    ensures DissectsSeq(s, items, i, j)
    decreases items, 0
  {
    if items != [] {
      var l := PartLen(items);
      assert items[..l] + items[l..] == items;
      var m := DivideSeq(s, items[..l], items[l..], i, j);
      FreeRest(items, l, |s.text|);
      MatchedSeqDissects(s, items[l..], groups, m, j);
      if Captures(items[0]) {
        assert items[..l] == [items[0]];
        MatchesSingleton(s, items[0], i, m);
        MatchedDissects(s, items[0], groups, i, m);
      }
      assert Split(s, items, i, j, m);
    }
  }

  lemma MatchedRepeatDissects(s: Subject, n: Node, groups: nat, i: nat, j: nat)
    requires n.Repeat? && Matches(s, n, i, j) && Free(n, |s.text|) && WellFormed(n, groups) && Captures(n)
    requires forall a, b :: Matches(s, n.inner, a, b) ==> Dissects(s, n.inner, a, b)
    ensures Dissects(s, n, i, j)
  {
    var x, min, max, more := n.inner, n.min, n.max, More(n.min, n.max);
    FirstChoiceDecides(x);
    assert PrefOf(x) == Shortest && min == 0 && max.Some? ==> max.value >= |s.text|;
    var k := CountOf(s, x, min, more, i, j);
    CopiesBounds(s, x, k, i, j);
    hide Dissects, Free, WellFormed, Matches, PrefOf, Choices;
    if min > 0 {
      var q := LastOfCopies(s, x, k, i, j);
      assert Reps(s, x, min - 1, more, i, q);
      assert LastCopy(s, x, min, max, i, j, q);
      RepeatDissects(s, n, i, j);
    } else if i < j {
      var ends := DropEmpty(s, x, k, i, j);
      IteratedIsShort(s, x, ends);
      var m := MaxMatches(max, i, j);
      if |ends| == m + 1 && Reluctant(Choices(x)) { OneByOne(s, x, ends, m - 1); }
      assert Division(s, x, m, ends, i, j);
      RepeatDissects(s, n, i, j);
    } else {
      RepeatDissects(s, n, i, j);
    }
  }

  lemma RepeatDissects(s: Subject, n: Node, i: nat, j: nat)
    requires n.Repeat? && Matches(s, n, i, j)
    requires if n.min > 0 then HasLastCopy(s, n.inner, n.min, n.max, i, j)
             else i == j || Divisible(s, n.inner, MaxMatches(n.max, i, j), i, j)
    ensures Dissects(s, n, i, j)
  {
    hide HasLastCopy, Divisible, Matches;
  }

  lemma {:induction false} LastOfCopies(s: Subject, x: Node, k: nat, i: nat, j: nat) returns (q: nat)
    requires k > 0 && Copies(s, x, k, i, j)
    ensures Copies(s, x, k - 1, i, q) && Matches(s, x, q, j)
    decreases k
  {
    hide Matches;
    var m := SplitCopies(s, x, k, i, j);
    if k == 1 {
      q := i;
      CopiesBounds(s, x, k, i, j);
    } else {
      q := LastOfCopies(s, x, k - 1, m, j);
      JoinCopies(s, x, k - 1, i, m, q);
    }
  }

  /** Empty iterations can be left out. */
  lemma {:induction false} DropEmpty(s: Subject, x: Node, k: nat, i: nat, j: nat) returns (ends: seq<nat>)
    requires Copies(s, x, k, i, j) && forall a, b :: Matches(s, x, a, b) ==> Dissects(s, x, a, b)
    ensures 1 <= |ends| <= k + 1 && ends[0] == i && ends[|ends| - 1] == j && Iterated(s, x, ends)
    decreases k
  {
    hide Matches, Dissects;
    if k == 0 {
      ends := [j];
    } else {
      var m := SplitCopies(s, x, k, i, j);
      ends := DropEmpty(s, x, k - 1, m, j);
      if m != i {
        assert i < m by { CopyBounds(s, x, i, m); }
        assert ([i] + ends)[1..] == ends;
        ends := [i] + ends;
      }
    }
  }

  lemma CopyBounds(s: Subject, x: Node, i: nat, j: nat)
    requires Matches(s, x, i, j)
    ensures i <= j <= |s.text|
  {
  }

  /** Every iteration takes at least a character. */
  lemma {:induction false} IteratedIsShort(s: Subject, x: Node, ends: seq<nat>)
    requires ends != [] && Iterated(s, x, ends)
    ensures ends[0] + |ends| - 1 <= ends[|ends| - 1]
    decreases |ends|
  {
    hide Dissects;
    if |ends| > 1 { IteratedIsShort(s, x, ends[1..]); }
  }

  /** With as many iterations as characters each takes one. */
  lemma {:induction false} OneByOne(s: Subject, x: Node, ends: seq<nat>, k: nat)
    requires k < |ends| && Iterated(s, x, ends) && ends[|ends| - 1] <= ends[0] + |ends| - 1
    ensures ends[k] == ends[0] + k
    decreases k
  {
    hide Dissects;
    IteratedIsShort(s, x, ends);
    if k > 0 {
      IteratedIsShort(s, x, ends[1..]);
      OneByOne(s, x, ends[1..], k - 1);
    }
  }
}
