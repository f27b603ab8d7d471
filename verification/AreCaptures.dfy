/**
 The captures the engine leaves are those the rules prescribe: what a dissection
 of a plan does to the captures is what the rules say of its tree.
 */
module AreCaptures {
  import opened Wrappers
  import opened AreSyntax
  import opened AreDissection
  import opened ArePlan
  import opened AreParse
  import opened AreRules
  import opened AreCompleteness

  /** Where the search ends its first iteration, no division of the rules does better. */
  lemma NoneSooner(w: World, p: Plan, x: Node, m: nat, i: nat, j: nat, e: nat, others: seq<nat>)
    requires Alike(w, p, x) && BestFirst(w, p, Reluctant(Choices(x)), m, i, j, e) && Division(w.s, x, m, others, i, j)
    ensures Prefers(Reluctant(Choices(x)), e, others[1])
  {
    hide Means, Good, Dissects, Matches, Choices, Division, FirstEnd;
    DivisionIsSome(w.s, x, m, others, i, j);
    FirstOfDivision(w.s, x, m, others, i, j);
    var f := others[1];
    if f < j {
      var rest := m - 1;
      assert Divisible(w.s, x, rest, f, j);
      DividesExactly(w, p, x, rest, f, j);
    }
    EndsAreFirst(w, p, x, m, i, j, f);
  }

  lemma DivisionIsSome(s: Subject, x: Node, m: nat, ends: seq<nat>, i: nat, j: nat)
    requires Division(s, x, m, ends, i, j)
    ensures m > 0 && |ends| >= 2 && ends[0] == i
  {
  }

  lemma FirstEndIs(w: World, p: Plan, shorter: bool, m: nat, i: nat, j: nat, e: nat)
    requires FirstEnd(w, p, shorter, m, i, j, e)
    ensures m > 0 && i < e <= j && Means(w, p, i, e) && Good(w, p, i, e)
    ensures if e == j then m == 1 && shorter ==> forall q :: i < q < j ==> !Means(w, p, i, q)
            else m > 1 && Divides(w, p, shorter, m - 1, e, j)
  {
  }

  /** The division of the search is the best of the rules. */
  lemma {:induction false} BestEnds(w: World, p: Plan, x: Node, m: nat, i: nat, j: nat) returns (ends: seq<nat>)
    requires Alike(w, p, x) && Divides(w, p, Reluctant(Choices(x)), m, i, j)
    ensures BestDivision(w.s, x, m, ends, i, j) && ends[|ends| - 2] == LastStart(w, p, Reluctant(Choices(x)), m, i, j)
    decreases m
  {
    hide Means, Good, Dissects, Matches, Choices, Division, FirstEnd;
    var shorter := Reluctant(Choices(x));
    var e := FirstStep(w, p, shorter, m, i, j);
    FirstEndIs(w, p, shorter, m, i, j, e);
    assert Dissects(w.s, x, i, e);
    if e == j {
      ends := [i, j];
      DivisionOfOne(w.s, x, m, ends, i, j);
      forall others | Division(w.s, x, m, others, i, j) ensures Leads(shorter, ends, others) {
        NoneSooner(w, p, x, m, i, j, e, others);
        DivisionIsSome(w.s, x, m, others, i, j);
        var last := ends[1..];
        assert last == [j] && last[1..] == [];
        assert Leads(shorter, last, others[1..]);
      }
    } else {
      var rest := BestEnds(w, p, x, m - 1, e, j);
      DivisionIsSome(w.s, x, m - 1, rest, e, j);
      ends := [i] + rest;
      DivisionOfMore(w.s, x, m, rest, i, e, j);
      forall others | Division(w.s, x, m, others, i, j) ensures Leads(shorter, ends, others) {
        NoneSooner(w, p, x, m, i, j, e, others);
        DivisionIsSome(w.s, x, m, others, i, j);
        FirstOfDivision(w.s, x, m, others, i, j);
        assert ends[1..] == rest;
      }
    }
  }

  lemma FirstStep(w: World, p: Plan, shorter: bool, m: nat, i: nat, j: nat) returns (e: nat)
    requires Divides(w, p, shorter, m, i, j)
    ensures BestFirst(w, p, shorter, m, i, j, e) && m > 0 && i < e <= j
    ensures e < j ==> Divides(w, p, shorter, m - 1, e, j)
    ensures LastStart(w, p, shorter, m, i, j) == if e == j then i else LastStart(w, p, shorter, m - 1, e, j)
  {
    BestFirstExists(w, p, shorter, m, i, j);
    e :| BestFirst(w, p, shorter, m, i, j, e) && (LastStart(w, p, shorter, m, i, j) == if e == j then i else LastStart(w, p, shorter, m - 1, e, j));
  }

  /** Dissecting a span leaves the captures the rules prescribe. */
  lemma {:induction false} CapturedIsRuled(w: World, p: Plan, n: Node, i: nat, j: nat, c: Caps)
    requires PlanOf(w.sources, p, n) && WellFormed(n, w.groups) && 2 * (w.groups + 1) <= |c|
    requires i <= j && Means(w, p, i, j) && Good(w, p, i, j)
    ensures Leaves(w.s, n, i, j, c, Captured(w, p, i, j, c))
    decreases n, 0
  {
    PlanIsCoherent(w, p, n);
    GoodIsDissects(w, p, n);
    if Captures(n) {
      match n
      case Group(None, x) => CapturedIsRuled(w, p, x, i, j, c);
      case Group(Some(g), x) => CapturedIsRuled(w, p.kind.inner, x, i, j, SetSpan(c, g, Some(i), Some(j)));
      case Concat(items) => CapturedSeqIsRuled(w, p.kind.elems, items, i, j, c);
      case Alt(branches) => CapturedChoiceIsRuled(w, p.kind.branches, branches, i, j, c);
      case Repeat(x, min, max, _, _) => CapturedIterIsRuled(w, p, n, i, j, c);
      case _ =>
    }
  }

  /** The case of `CapturedIsRuled` for a quantifier. */
  lemma {:induction false} CapturedIterIsRuled(w: World, p: Plan, n: Node, i: nat, j: nat, c: Caps)
    requires n.Repeat? && Captures(n) && PlanOf(w.sources, p, n) && WellFormed(n, w.groups) && 2 * (w.groups + 1) <= |c|
    requires i <= j <= |w.s.text| && Good(w, p, i, j) && Dissects(w.s, n, i, j)
    ensures Leaves(w.s, n, i, j, c, Captured(w, p, i, j, c))
    decreases n.inner, 1
  {
    var (x, y, min, max, greedy) := (n.inner, p.kind.body, n.min, n.max, n.greedy);
    GoodIsDissects(w, y, x);
    PlanIsCoherent(w, y, x);
    GroupsAreKnown(x, w.groups);
    ZapIsForgotten(w.sources, y, x, c);
    FirstChoiceDecides(x);
    var f := Forgotten(LiveGroups(x), c);
    assert p.kind == Iter(y, min, max, greedy, Reluctant(Choices(x)));
    if min > 0 {
      BestBlobExists(w, y, min, max, greedy, i, j);
      var q :| BestBlob(w, y, min, max, greedy, i, j, q);
      BlobIsBest(w, y, min, max, greedy, i, j, q, p.kind.shorter, p.prog, c);
      BestBlobIsCopy(w, y, x, min, max, greedy, i, j, q);
      CapturedIsRuled(w, y, x, q, j, f);
      LeavesByCopy(w.s, n, i, j, q, c, Captured(w, p, i, j, c));
    } else if i < j {
      var m := MaxMatches(max, i, j);
      var ends := BestEnds(w, y, x, m, i, j);
      var q := LastStart(w, y, p.kind.shorter, m, i, j);
      CapturedIsRuled(w, y, x, q, j, f);
      LeavesByDivision(w.s, n, i, j, ends, c, Captured(w, p, i, j, c));
    }
  }

  lemma BestBlobIsCopy(w: World, y: Plan, x: Node, min: nat, max: Option<nat>, greedy: bool, i: nat, j: nat, q: nat)
    requires Alike(w, y, x) && min > 0 && (max.Some? ==> min <= max.value) && BestBlob(w, y, min, max, greedy, i, j, q)
    ensures BestCopy(w.s, x, min, max, greedy, i, j, q)
  {
    hide GoodBlob, LastCopy, Alike;
    forall r: nat ensures GoodBlob(w, y, min, max, i, j, r) <==> LastCopy(w.s, x, min, max, i, j, r) {
      BlobIsCopy(w, y, x, min, max, i, j, r);
    }
  }

  lemma LeavesByCopy(s: Subject, n: Node, i: nat, j: nat, q: nat, c: Caps, d: Caps)
    requires n.Repeat? && n.min > 0 && Captures(n) && Dissects(s, n, i, j) && BestCopy(s, n.inner, n.min, n.max, n.greedy, i, j, q)
    requires Leaves(s, n.inner, q, j, Forgotten(LiveGroups(n.inner), c), d)
    ensures Leaves(s, n, i, j, c, d)
  {
    hide BestCopy, Dissects, Captures;
    assert LeavesCopy(s, n.inner, n.min, n.max, n.greedy, i, j, c, d);
  }

  lemma LeavesByDivision(s: Subject, n: Node, i: nat, j: nat, ends: seq<nat>, c: Caps, d: Caps)
    requires n.Repeat? && n.min == 0 && Captures(n) && i < j && Dissects(s, n, i, j)
    requires BestDivision(s, n.inner, MaxMatches(n.max, i, j), ends, i, j)
    requires Leaves(s, n.inner, ends[|ends| - 2], j, Forgotten(LiveGroups(n.inner), c), d)
    ensures Leaves(s, n, i, j, c, d)
  {
    hide Dissects, Captures;
    assert LeavesDivision(s, n.inner, MaxMatches(n.max, i, j), i, j, c, d);
  }

  lemma {:induction false} CapturedSeqIsRuled(w: World, elems: seq<Elem>, items: seq<Node>, i: nat, j: nat, c: Caps)
    requires ElemsOf(w.sources, elems, items) && (forall x | x in items :: WellFormed(x, w.groups)) && 2 * (w.groups + 1) <= |c|
    requires i <= j <= |w.s.text| && GoodSeq(w, elems, i, j)
    ensures LeavesSeq(w.s, items, i, j, c, CapturedSeq(w, elems, i, j, c))
    decreases items, 1
  {
    if items != [] {
      var m := BestSplitOf(w, elems, items, i, j, c);
      var e := CapturedElem(w, elems[0], i, m, c);
      CapturedPartIsRuled(w, elems[0], items, i, m, c);
      ElemKeepsSize(w, elems[0], items, i, m, c);
      if |elems| == 1 {
        assert items[PartLen(items)..] == [];
      } else {
        CapturedSeqIsRuled(w, elems[1..], items[PartLen(items)..], m, j, e);
      }
      hide Captured, PlanOf, Good, Dissects, Captures, WellFormed;
      assert BestSplit(w.s, items, i, j, m) && LeavesPart(w.s, items, i, m, c, e);
    }
  }

  /** The end the dissection gives the first element is the split the rules prefer. */
  lemma BestSplitOf(w: World, elems: seq<Elem>, items: seq<Node>, i: nat, j: nat, c: Caps) returns (m: nat)
    requires items != [] && ElemsOf(w.sources, elems, items) && (forall x | x in items :: WellFormed(x, w.groups))
    requires i <= j <= |w.s.text| && GoodSeq(w, elems, i, j)
    ensures BestSplit(w.s, items, i, j, m) && i <= m <= j && Means(w, elems[0].plan, i, m) && GoodElem(w, elems[0], i, m)
    ensures |elems| == 1 ==> m == j && CapturedSeq(w, elems, i, j, c) == CapturedElem(w, elems[0], i, j, c)
    ensures |elems| > 1 ==>
      && GoodSeq(w, elems[1..], m, j)
      && CapturedSeq(w, elems, i, j, c) == CapturedSeq(w, elems[1..], m, j, CapturedElem(w, elems[0], i, m, c))
  {
    forall q: nat ensures Split(w.s, items, i, j, q) <==> CanEnd(w, elems, i, j, q) {
      EndIsSplit(w, elems, items, i, j, q);
    }
    CanEndIsGood(w, elems, i, j);
    ElemPrefers(w.sources, elems[0], items);
    hide Means, Good, Captured, Split, PlanOf, Choices, WellFormed;
    if |elems| == 1 {
      m := j;
      assert CanEnd(w, elems, i, j, j);
    } else {
      BestEndExists(w, elems, i, j);
      m :| BestEnd(w, elems, i, j, m);
      EndIsBest(w, elems, i, j, m, c);
    }
  }

  lemma ElemPrefers(srcs: seq<seq<Node>>, e: Elem, items: seq<Node>)
    requires items != [] && ElemOf(srcs, e, items)
    ensures e.shorter <==> Reluctant(ChoicesOf(items[..PartLen(items)]))
  {
    if Captures(items[0]) {
      FirstChoiceDecides(items[0]);
      assert items[..1] == [items[0]] && [items[0]][1..] == [];
      assert ChoicesOf([items[0]]) == Choices(items[0]);
    } else {
      FirstChoiceOfSeq(items[..PartLen(items)]);
    }
  }

  lemma {:induction false} CapturedPartIsRuled(w: World, e: Elem, items: seq<Node>, i: nat, m: nat, c: Caps)
    requires items != [] && ElemOf(w.sources, e, items) && (forall x | x in items :: WellFormed(x, w.groups)) && 2 * (w.groups + 1) <= |c|
    requires i <= m && Means(w, e.plan, i, m) && GoodElem(w, e, i, m)
    ensures LeavesPart(w.s, items, i, m, c, CapturedElem(w, e, i, m, c))
    decreases items[0], 1
  {
    if Captures(items[0]) { CapturedIsRuled(w, e.plan, items[0], i, m, c); }
  }

  lemma ElemKeepsSize(w: World, e: Elem, items: seq<Node>, i: nat, j: nat, c: Caps)
    requires items != [] && ElemOf(w.sources, e, items) && (forall x | x in items :: WellFormed(x, w.groups)) && 2 * (w.groups + 1) <= |c|
    requires i <= j && GoodElem(w, e, i, j)
    ensures |CapturedElem(w, e, i, j, c)| == |c|
  {
    ElemIsCoherent(w, e, items);
    CoherentElemGroups(w, e);
    CapturedElemTouches(w, e, i, j, c);
  }

  lemma {:induction false} CapturedChoiceIsRuled(w: World, plans: seq<Plan>, branches: seq<Node>, i: nat, j: nat, c: Caps)
    requires BranchesOf(w.sources, plans, branches) && (forall x | x in branches :: WellFormed(x, w.groups)) && 2 * (w.groups + 1) <= |c|
    requires i <= j && GoodChoice(w, plans, i, j)
    ensures exists k: nat :: FirstBranch(w.s, branches, i, j, k) && Leaves(w.s, branches[k], i, j, c, CapturedChoice(w, plans, i, j, c))
    decreases branches, 1
  {
    GoodIsDissects(w, plans[0], branches[0]);
    if Means(w, plans[0], i, j) && Good(w, plans[0], i, j) {
      CapturedIsRuled(w, plans[0], branches[0], i, j, c);
      assert FirstBranch(w.s, branches, i, j, 0);
    } else {
      CapturedChoiceIsRuled(w, plans[1..], branches[1..], i, j, c);
      var k: nat :| FirstBranch(w.s, branches[1..], i, j, k) && Leaves(w.s, branches[1..][k], i, j, c, CapturedChoice(w, plans[1..], i, j, c));
      LaterBranch(w.s, branches, i, j, k);
    }
  }

  lemma LaterBranch(s: Subject, branches: seq<Node>, i: nat, j: nat, k: nat)
    requires branches != [] && !Dissects(s, branches[0], i, j) && FirstBranch(s, branches[1..], i, j, k)
    ensures FirstBranch(s, branches, i, j, k + 1) && branches[1..][k] == branches[k + 1]
  {
    hide Dissects;
    forall h: nat | h < k + 1 ensures !Dissects(s, branches[h], i, j) {
      if h > 0 { assert branches[1..][h - 1] == branches[h]; }
    }
  }

  /** The captures a dissection leaves are those of a parse of the span. */
  lemma CapturedParses(w: World, p: Plan, n: Node, i: nat, j: nat, c: Caps)
    requires PlanOf(w.sources, p, n) && WellFormed(n, w.groups) && 2 * (w.groups + 1) <= |c|
    requires i <= j && Means(w, p, i, j) && Good(w, p, i, j)
    ensures Parses(w.s, n, i, j, c, Captured(w, p, i, j, c))
  {
    CapturedIsRuled(w, p, n, i, j, c);
    LeavesParses(w.s, n, w.groups, i, j, c, Captured(w, p, i, j, c));
  }
}
