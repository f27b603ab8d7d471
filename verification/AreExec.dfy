/**
 A compiled pattern, and the match it finds: leftmost, then the length its
 preference asks for, then the captures of a dissection of that span.
 */
module AreExec {
  import opened Wrappers
  import opened AreSyntax
  import opened AreProgram
  import opened AreSteps
  import opened AreTidy
  import opened AreFrontier
  import opened AreVisited
  import opened AreSearch
  import opened AreCompiler
  import opened AreEnds
  import opened AreDissection
  import opened AreCiter
  import opened AreDissect
  import opened AreCompleteness
  import opened ArePlan
  import opened AreParse
  import opened AreRules
  import opened AreCaptures

  /** The number of steps a search may take. */
  const BUDGET: nat := 20_000_000

  type Spans = seq<Option<(nat, nat)>>

  // ----- what is known of a tree before a search

  lemma {:induction false} NoPrefIsFree(n: Node, groups: nat, len: nat)
    requires WellFormed(n, groups) && PrefOf(n) == NoPref
    ensures Free(n, len)
    decreases n, 0
  {
    match n
    case Group(_, x) => NoPrefIsFree(x, groups, len);
    case Concat(items) => NoPrefSeqIsFree(items, groups, len);
    case Repeat(x, _, max, _, _) => if max != Some(0) { NoPrefIsFree(x, groups, len); }
    case _ =>
  }

  lemma {:induction false} NoPrefSeqIsFree(items: seq<Node>, groups: nat, len: nat)
    requires (forall x | x in items :: WellFormed(x, groups)) && PrefOfSeq(items) == NoPref
    ensures FreeAll(items, len)
    decreases items, 0
  {
    if items != [] {
      NoPrefIsFree(items[0], groups, len);
      NoPrefSeqIsFree(items[1..], groups, len);
    }
  }

  /** No group is number 0, which is the whole match. */
  predicate Inner(n: Node)
    decreases n
  {
    match n
    case Group(g, x) => g != Some(0) && Inner(x)
    case Look(_, x) => Inner(x)
    case Concat(items) => forall k | 0 <= k < |items| :: Inner(items[k])
    case Alt(branches) => forall k | 0 <= k < |branches| :: Inner(branches[k])
    case Repeat(x, _, _, _, _) => Inner(x)
    case _ => true
  }

  lemma {:induction false} InnerSlots(n: Node)
    requires Inner(n)
    ensures 0 !in LiveGroups(n)
    decreases n, 0
  {
    match n
    case Group(_, x) => InnerSlots(x);
    case Concat(items) => InnerSeqSlots(items);
    case Alt(branches) => InnerSeqSlots(branches);
    case Repeat(x, _, _, _, _) => InnerSlots(x);
    case _ =>
  }

  lemma {:induction false} InnerSeqSlots(items: seq<Node>)
    requires forall k | 0 <= k < |items| :: Inner(items[k])
    ensures 0 !in SeqGroups(items)
    decreases items, 0
  {
    if items != [] {
      InnerSlots(items[0]);
      assert forall k :: 0 <= k < |items| - 1 ==> items[1..][k] == items[k + 1];
      InnerSeqSlots(items[1..]);
    }
  }

  lemma {:induction false} NoGroupsIsPlain(n: Node)
    requires WellFormed(n, 0) && Inner(n)
    ensures Plain(n)
    decreases n
  {
    match n
    case Group(_, x) => NoGroupsIsPlain(x);
    case Look(_, x) => NoGroupsIsPlain(x);
    case Concat(items) =>
      forall k | 0 <= k < |items| ensures Plain(items[k]) { NoGroupsIsPlain(items[k]); }
    case Alt(branches) =>
      forall k | 0 <= k < |branches| ensures Plain(branches[k]) { NoGroupsIsPlain(branches[k]); }
    case Repeat(x, _, _, _, _) => NoGroupsIsPlain(x);
    case _ =>
  }

  // ----- the answer

  /** Captures with nothing set but the whole match. */
  function Initial(slots: nat, start: nat, end: nat): (c: Caps)
    requires slots >= 2
    ensures |c| == slots
  {
    seq(slots, k => if k == 0 then Some(start) else if k == 1 then Some(end) else None)
  }

  /** One span per group, group 0 first. */
  function SpansOf(c: Caps, groups: nat): (spans: Spans)
    requires 2 * (groups + 1) <= |c|
    ensures |spans| == groups + 1
  {
    seq(groups + 1, g requires 0 <= g <= groups =>
      if c[2 * g].Some? && c[2 * g + 1].Some? then Some((c[2 * g].value, c[2 * g + 1].value)) else None)
  }

  /** The match an ARE prescribes: leftmost, then by preference. */
  ghost predicate Prescribed(s: Subject, top: Node, start: nat, end: nat) {
    && Matches(s, top, start, end)
    && (forall i: nat, j :: i < start ==> !Matches(s, top, i, j))
    && (forall j :: Matches(s, top, start, j) ==> Prefers(PrefOf(top) == Shortest, end, j))
  }

  /** `end` ends a match from some start before `start`. */
  ghost predicate MatchedBefore(s: Subject, top: Node, start: nat, end: nat) {
    exists i: nat :: i < start && Matches(s, top, i, end)
  }

  /** A span that matches and can be taken apart, and whose end ends no match from further left. */
  ghost predicate Candidate(s: Subject, top: Node, start: nat, end: nat) {
    Dissects(s, top, start, end) && !MatchedBefore(s, top, start, end)
  }

  ghost predicate NoneBefore(s: Subject, top: Node, start: nat) {
    forall b: nat, e :: b < start ==> !Candidate(s, top, b, e)
  }

  /** Of the candidates from `start` the one that is preferred. */
  ghost predicate BestAt(s: Subject, top: Node, start: nat, end: nat) {
    Candidate(s, top, start, end) && forall j :: Candidate(s, top, start, j) ==> Prefers(PrefOf(top) == Shortest, end, j)
  }

  /** What a pattern answers: the leftmost candidate, the preferred one from there; nothing only when there is none. */
  ghost predicate Answer(s: Subject, top: Node, span: Option<(nat, nat)>) {
    if span.None? then forall b, e :: !Candidate(s, top, b, e)
    else NoneBefore(s, top, span.value.0) && BestAt(s, top, span.value.0, span.value.1)
  }

  /** The tree matches from `start`, and from nowhere before it. */
  ghost predicate Leftmost(s: Subject, top: Node, start: nat) {
    (exists e :: Matches(s, top, start, e)) && forall i: nat, e :: i < start ==> !Matches(s, top, i, e)
  }

  lemma DissectsMatches(s: Subject, n: Node, i: nat, j: nat)
    requires Dissects(s, n, i, j)
    ensures Matches(s, n, i, j) && i <= j <= |s.text|
  {
  }

  /** There is one answer. */
  lemma AnswerIsUnique(s: Subject, top: Node, span: Option<(nat, nat)>, span': Option<(nat, nat)>)
    requires Answer(s, top, span) && Answer(s, top, span')
    ensures span == span'
  {
    hide Candidate;
    if span.Some? && span'.Some? {
      assert span.value.0 == span'.value.0;
    }
  }

  /** If any span from the leftmost start that matches can be taken apart, the answer is the preferred one of those. */
  lemma LeftmostIsAnswered(s: Subject, top: Node, span: Option<(nat, nat)>, b: nat, e: nat)
    requires Answer(s, top, span) && Leftmost(s, top, b) && Dissects(s, top, b, e)
    ensures span.Some? && span.value.0 == b && Prefers(PrefOf(top) == Shortest, span.value.1, e)
  {
    hide Matches, Dissects, PrefOf;
    assert Candidate(s, top, b, e);
    if span.Some? { DissectsMatches(s, top, span.value.0, span.value.1); }
  }

  /** The prescribed span is the answer exactly when it can be taken apart. */
  lemma PrescribedIsAnswer(s: Subject, top: Node, span: Option<(nat, nat)>, b: nat, e: nat)
    requires Answer(s, top, span) && Prescribed(s, top, b, e)
    ensures span == Some((b, e)) <==> Dissects(s, top, b, e)
  {
    hide Matches, Dissects, PrefOf;
    if Dissects(s, top, b, e) {
      LeftmostIsAnswered(s, top, span, b, e);
      DissectsMatches(s, top, b, span.value.1);
    }
  }

  /** Of a free tree the answer is the prescribed span, if there is a match at all. */
  lemma FreeIsPrescribed(s: Subject, top: Node, groups: nat, span: Option<(nat, nat)>)
    requires Answer(s, top, span) && WellFormed(top, groups) && Free(top, |s.text|)
    ensures span.Some? ==> Prescribed(s, top, span.value.0, span.value.1)
    ensures span.None? ==> forall i, j :: !Matches(s, top, i, j)
  {
    hide Matches, Dissects, Free, PrefOf, WellFormed;
    if span.Some? { DissectsMatches(s, top, span.value.0, span.value.1); }
    if exists i, j :: Matches(s, top, i, j) {
      var i, j :| Matches(s, top, i, j);
      var b := FirstStart(s, top, i, j);
      var e :| Matches(s, top, b, e);
      forall q | Matches(s, top, b, q) ensures span.Some? && span.value.0 == b && Prefers(PrefOf(top) == Shortest, span.value.1, q) {
        MatchedDissects(s, top, groups, b, q);
        LeftmostIsAnswered(s, top, span, b, q);
      }
    }
  }

  lemma {:induction false} FirstStart(s: Subject, top: Node, i: nat, j: nat) returns (b: nat)
    requires Matches(s, top, i, j)
    ensures Leftmost(s, top, b)
    decreases i
  {
    hide Matches;
    b := i;
    if !Leftmost(s, top, i) {
      var a: nat, q :| a < i && Matches(s, top, a, q);
      b := FirstStart(s, top, a, q);
    }
  }

  class Pattern {
    const engine: Engine
    const root: seq<Inst>
    const progs: seq<seq<Inst>>
    const plan: Plan
    const groups: nat
    const slots: nat
    const overall: Pref
    ghost const top: Node
    ghost const sl: nat
    ghost const sources: seq<seq<Node>>
    ghost const bases: seq<nat>

    ghost predicate Valid() {
      && engine.Valid() && engine.groups == groups && 2 * (groups + 1) <= slots
      && WellFormed(top, groups) && Inner(top) && overall == PrefOf(top)
      && Unit(engine.Img(), root, [Group(Some(0), top)], groups, sl) && sl + SeqMarks([Group(Some(0), top)]) <= slots
      && |progs| == |sources| == |bases|
      && (forall k :: 0 <= k < |progs| ==>
           Unit(engine.Img(), progs[k], sources[k], groups, bases[k]) && bases[k] + SeqMarks(sources[k]) <= slots)
      && (groups > 0 ==> PlanOf(sources, plan, top))
    }

    constructor (engine: Engine, root: seq<Inst>, progs: seq<seq<Inst>>, plan: Plan, groups: nat, slots: nat, overall: Pref,
                 ghost top: Node, ghost sl: nat, ghost sources: seq<seq<Node>>, ghost bases: seq<nat>)
      ensures this.engine == engine && this.root == root && this.progs == progs && this.plan == plan && this.groups == groups
      ensures this.slots == slots && this.overall == overall && this.top == top && this.sl == sl && this.sources == sources && this.bases == bases
    {
      this.engine, this.root, this.progs, this.plan, this.groups := engine, root, progs, plan, groups;
      this.slots, this.overall, this.top, this.sl, this.sources, this.bases := slots, overall, top, sl, sources, bases;
    }

    /** The root program and those of the plan do not come to too many nodes. */
    static predicate Accepted(top: Node, groups: nat) {
      Grown(top, 0).Some? && (groups > 0 ==> PlanGrown(top, Grown(top, 0).value).Some?)
    }

    /** Compile a tree; null when the pattern is too complex. */
    static method New(top: Node, groups: nat) returns (p: Pattern?)
      requires WellFormed(top, groups) && Inner(top)
      ensures p != null <==> Accepted(top, groups)
      ensures p != null ==> p.Valid() && p.top == top && p.groups == groups && p.sl == 2 * (groups + 1)
    {
      p := null;
      hide Codes, Len, Marks, CodesSeq, SeqLen, SeqMarks, PlanOf, Captures, Extends, Normal;
      var c := new Compiler(groups);
      var ok, root;
      ok, root := c.EmitGroup([], Some(0), top);
      if !ok { return; }
      root := root + [Match];
      ghost var img, nodes := c.Img(), [Group(Some(0), top)];
      RootUnit(img, root, top, groups, 2 * (groups + 1));
      var planner := new Planner(c);
      var plan := Plan(0, Leaf);
      if groups > 0 {
        ok, plan := planner.MakePlan(top);
        if !ok { return; }
      }
      UnitFrame(img, c.Img(), root, nodes, groups, 2 * (groups + 1));
      var engine := new Engine(c.sets, c.subs, c.looks, c.bases, groups);
      p := new Pattern(engine, root, planner.progs, plan, groups, 2 * (groups + 1) + c.marks, PrefOf(top),
                       top, 2 * (groups + 1), planner.sources, planner.bases);
    }

    static lemma RootUnit(img: Image, root: seq<Inst>, top: Node, groups: nat, sl: nat)
      requires root != [] && root[|root| - 1] == Match && WellFormed(top, groups) && 2 * (groups + 1) <= sl
      requires Appended(img, [], root[..|root| - 1], Group(Some(0), top), sl)
      ensures Unit(img, root, [Group(Some(0), top)], groups, sl)
      ensures SeqMarks([Group(Some(0), top)]) == Marks(Group(Some(0), top))
    {
      var x := Group(Some(0), top);
      FrameAppend(img, root[..|root| - 1], root, x, 0, sl);
      UnitOfOne(img, root, x, groups, sl);
      assert [x][1..] == [];
    }

    ghost function WorldOf(s: Subject): World {
      World(s, sources, groups)
    }

    /** The first of some ends whose span dissects, or that there is none. */
    ghost predicate FirstGood(s: Subject, start: nat, ends: seq<nat>, end: Option<nat>) {
      if end.None? then forall k :: 0 <= k < |ends| ==> !Dissects(s, top, start, ends[k])
      else exists k :: 0 <= k < |ends| && GoodAt(s, start, ends, k, end.value)
    }

    ghost predicate GoodAt(s: Subject, start: nat, ends: seq<nat>, k: nat, end: nat)
      requires k < |ends|
    {
      ends[k] == end && Dissects(s, top, start, end) && forall q :: 0 <= q < k ==> !Dissects(s, top, start, ends[q])
    }

    /** Of ends in order of preference, the first whose span dissects. */
    method FirstDissected(search: Search, start: nat, ends: seq<nat>) returns (outcome: Outcome, end: Option<nat>, caps: Caps)
      requires Valid() && start <= |search.s.text|
      requires forall j :: j in ends ==> Matches(search.s, top, start, j)
      modifies search
      ensures |caps| == slots && (outcome == Overflow ==> search.budget == 0)
      ensures groups == 0 ==> outcome == Done && search.budget == old(search.budget)
      ensures outcome == Done ==> FirstGood(search.s, start, ends, end)
      ensures outcome == Done && end.Some? ==>
        end.value in ends && Leaves(search.s, top, start, end.value, Initial(slots, start, end.value), caps)
    {
      hide Unit, SeqMarks, Leaves, Dissects, Good, Means, Coherent, Matches, PlanOf, WellFormed;
      end, caps := None, Initial(slots, start, start);
      ghost var w := WorldOf(search.s);
      var d := new Dissect(engine, progs, search, slots, bases, w);
      for k := 0 to |ends|
        invariant d.Valid() && d.w == w && d.slots == slots && d.search == search
        invariant forall q :: 0 <= q < k ==> !Dissects(search.s, top, start, ends[q])
        invariant |caps| == slots
        invariant groups == 0 ==> search.budget == old(search.budget)
      {
        var j := ends[k];
        assert j in ends;
        caps := Initial(slots, start, j);
        if groups == 0 {
          PlainIsRuled(search.s, start, j, caps);
          assert GoodAt(search.s, start, ends, k, j);
          return Done, Some(j), caps;
        }
        SpanOfPlan(w, start, j);
        var ok;
        outcome, ok, caps := d.Go(plan, start, j, Initial(slots, start, j));
        if outcome == Overflow { caps := Initial(slots, start, j); return; }
        if ok {
          CapturedIsRuled(w, plan, top, start, j, Initial(slots, start, j));
          assert GoodAt(search.s, start, ends, k, j);
          return Done, Some(j), caps;
        }
      }
      outcome := Done;
    }

    lemma PlainIsRuled(s: Subject, start: nat, end: nat, caps: Caps)
      requires Valid() && groups == 0 && Matches(s, top, start, end)
      ensures Dissects(s, top, start, end) && Leaves(s, top, start, end, caps, caps)
    {
      NoGroupsIsPlain(top);
    }

    /** A span the pattern matches is one its plan matches, and takes apart exactly when the rules do. */
    lemma SpanOfPlan(w: World, start: nat, end: nat)
      requires Valid() && groups > 0 && w.sources == sources && w.groups == groups
      requires Matches(w.s, top, start, end)
      ensures start <= end <= |w.s.text| && Coherent(w, plan) && Means(w, plan, start, end)
      ensures Good(w, plan, start, end) <==> Dissects(w.s, top, start, end)
    {
      PlanIsCoherent(w, plan, top);
      GoodIsDissects(w, plan, top);
    }

    /** What a match leaves at the slots of the whole match, and how its captures lie. */
    lemma MatchIsLaid(s: Subject, start: nat, end: nat, caps: Caps)
      requires Valid() && Leaves(s, top, start, end, Initial(slots, start, end), caps)
      ensures |caps| == slots && caps[0] == Some(start) && caps[1] == Some(end)
      ensures Parses(s, top, start, end, Initial(slots, start, end), caps)
      ensures Numbered(top) ==> Laid(top, start, end, caps)
    {
      hide Leaves, Parses, Laid, Matches, Numbered, Unit, WellFormed, LiveGroups, Inner, PlanOf;
      var c := Initial(slots, start, end);
      LeavesParses(s, top, groups, start, end, c, caps);
      InnerSlots(top);
      GroupsAreKnown(top, groups);
      ParsesTouches(s, top, start, end, c, caps);
      if Numbered(top) { ParsesIsLaid(s, top, start, end, c, caps); }
    }

    /** Candidate ends in the order the pattern's preference tries them. */
    method Candidates(found: seq<nat>) returns (ends: seq<nat>)
      ensures forall j :: j in ends ==> j in found
      ensures found != [] ==> ends != []
      ensures overall != NoPref ==> forall j :: j in found ==> j in ends
      ensures forall a, b :: 0 <= a < b < |ends| ==> Sooner(overall == Shortest, ends[a], ends[b])
    {
      ends := SortDedup(found);
      ends := Dissect.Order(ends, overall == Shortest);
      if found != [] {
        assert found[0] in ends;
        if overall == NoPref { ends := ends[..1]; }
      }
    }

    lemma OneEnd(s: Subject, start: nat, j: nat, k: nat)
      requires Valid() && overall == NoPref && Matches(s, top, start, j) && Matches(s, top, start, k)
      ensures j == k
    {
      NoPrefIsUnique(s, top, groups, start, j, k);
    }

    lemma PairsSpent(marked: set<Config>, n: nat, start: nat)
      requires start <= n && forall c :: c in marked ==> c.pc < |root| && c.pos <= n
      ensures 2 * |marked| + start + 1 <= (2 * |root| + 1) * (n + 1)
    {
      PairsFit(|root|, n + 1, marked);
      assert (2 * |root| + 1) * (n + 1) == 2 * (|root| * (n + 1)) + n + 1;
    }

    lemma FirstSpan(caps: Caps)
      requires |caps| >= 2 * (groups + 1) && caps[0].Some? && caps[1].Some?
      ensures SpansOf(caps, groups)[0] == Some((caps[0].value, caps[1].value))
    {
    }

    lemma RootMeans(s: Subject)
      ensures forall i, j :: MatchesSeq(s, [Group(Some(0), top)], i, j) <==> Matches(s, top, i, j)
    {
      forall i, j ensures MatchesSeq(s, [Group(Some(0), top)], i, j) <==> Matches(s, top, i, j) {
        MatchesSingleton(s, Group(Some(0), top), i, j);
        assert Matches(s, Group(Some(0), top), i, j) <==> Matches(s, top, i, j);
      }
    }

    /**
     What is known when every start before this one has been tried: none had a
     candidate, and the pairs marked at the last instruction are their ends.
     */
    ghost predicate TriedBefore(s: Subject, start: nat, marked: set<Config>)
      requires root != []
    {
      NoneBefore(s, top, start) && forall j :: Config(|root| - 1, j) in marked <==> MatchedBefore(s, top, start, j)
    }

    /** The ends to try from a start: those of its matches that end no match from before it. */
    ghost predicate Offered(s: Subject, start: nat, ends: seq<nat>) {
      forall j :: j in ends <==> Matches(s, top, start, j) && !MatchedBefore(s, top, start, j)
    }

    /** What a search finds is what is to be tried, also when it stops at its first match. */
    lemma FoundIsOffered(s: Subject, start: nat, before: set<Config>, marked: set<Config>, found: seq<nat>, ends: seq<nat>)
      requires Valid() && root != [] && TriedBefore(s, start, before) && (forall j :: j in ends ==> j in found) && (found != [] ==> ends != [])
      requires overall != NoPref ==> forall j :: j in found ==> j in ends
      requires forall j :: j in found ==> Matches(s, top, start, j)
      requires forall j :: j in found <==> Config(|root| - 1, j) in marked && Config(|root| - 1, j) !in before
      requires overall != NoPref || found == [] ==> forall j :: Matches(s, top, start, j) ==> j in found || Config(|root| - 1, j) in before
      ensures Offered(s, start, ends)
      ensures forall j :: j in ends <==> Config(|root| - 1, j) in marked && Config(|root| - 1, j) !in before
    {
      hide Matches, MatchedBefore, Dissects, Unit, PlanOf, WellFormed, Candidate;
      if overall == NoPref && found != [] {
        assert ends[0] in found;
        forall j | j in found ensures j in ends { OneEnd(s, start, ends[0], j); }
      }
      forall j | Matches(s, top, start, j) && !MatchedBefore(s, top, start, j) ensures j in ends {
        if overall == NoPref && found != [] {
          assert ends[0] in found;
          OneEnd(s, start, ends[0], j);
        }
      }
    }

    /** One more start that gave no span. */
    lemma TriedOne(s: Subject, start: nat, before: set<Config>, marked: set<Config>, ends: seq<nat>)
      requires root != [] && TriedBefore(s, start, before) && Offered(s, start, ends) && before <= marked
      requires forall j :: j in ends <==> Config(|root| - 1, j) in marked && Config(|root| - 1, j) !in before
      requires FirstGood(s, start, ends, None)
      ensures TriedBefore(s, start + 1, marked)
    {
      hide Matches, MatchedBefore, Dissects, Candidate;
      var next := start + 1;
      forall b: nat, e | b < next ensures !Candidate(s, top, b, e) {
        if b == start { NotGood(s, start, ends, e); }
      }
      forall j ensures MatchedBefore(s, top, next, j) <==> j in ends || MatchedBefore(s, top, start, j) {
        MatchedNext(s, start, j);
      }
    }

    lemma NotGood(s: Subject, start: nat, ends: seq<nat>, e: nat)
      requires Offered(s, start, ends) && FirstGood(s, start, ends, None)
      ensures !Candidate(s, top, start, e)
    {
      hide Matches, MatchedBefore, Dissects;
      if Dissects(s, top, start, e) { DissectsMatches(s, top, start, e); }
      if e in ends {
        var k :| 0 <= k < |ends| && ends[k] == e;
        assert !Dissects(s, top, start, ends[k]);
      }
    }

    lemma MatchedNext(s: Subject, start: nat, j: nat)
      ensures MatchedBefore(s, top, start + 1, j) <==> MatchedBefore(s, top, start, j) || Matches(s, top, start, j)
    {
      hide Matches;
      var next := start + 1;
      if MatchedBefore(s, top, next, j) { var i: nat :| i < next && Matches(s, top, i, j); }
      if MatchedBefore(s, top, start, j) { var i: nat :| i < start && Matches(s, top, i, j); assert i < next; }
      if Matches(s, top, start, j) { assert start < next; }
    }

    /** The start that gave a span gives the answer. */
    lemma TriedAll(s: Subject, start: nat, before: set<Config>, ends: seq<nat>, end: nat)
      requires root != [] && overall == PrefOf(top) && TriedBefore(s, start, before) && Offered(s, start, ends)
      requires forall a, b :: 0 <= a < b < |ends| ==> Sooner(overall == Shortest, ends[a], ends[b])
      requires FirstGood(s, start, ends, Some(end))
      ensures Answer(s, top, Some((start, end)))
    {
      hide Matches, MatchedBefore, Dissects;
      var k :| 0 <= k < |ends| && GoodAt(s, start, ends, k, end);
      assert ends[k] in ends;
      forall j | Candidate(s, top, start, j) ensures Prefers(overall == Shortest, end, j) {
        DissectsMatches(s, top, start, j);
        assert j in ends;
        var a :| 0 <= a < |ends| && ends[a] == j;
        if k < a { assert Sooner(overall == Shortest, ends[k], ends[a]); }
      }
    }

    lemma NothingTried(s: Subject, marked: set<Config>)
      requires root != [] && marked == {}
      ensures TriedBefore(s, 0, marked)
    {
      hide Candidate;
    }

    /** With every start tried there is no answer. */
    lemma NothingFound(s: Subject, marked: set<Config>)
      requires root != [] && TriedBefore(s, |s.text| + 1, marked)
      ensures Answer(s, top, None)
    {
      hide Dissects;
      forall b, e ensures !Candidate(s, top, b, e) {
        if Candidate(s, top, b, e) { DissectsMatches(s, top, b, e); }
      }
    }

    /** The table of a search of `s`. */
    ghost predicate Table(s: Subject, visited: Visited)
      reads visited
    {
      && visited.Valid() && visited.insts == |root| && visited.width == |s.text| + 1
      && forall c :: c in visited.marked ==> c.pc < |root| && c.pos <= |s.text|
    }

    ghost function TaskAt(s: Subject): Task {
      engine.TaskOf(s, root, [Group(Some(0), top)], sl)
    }

    /** Search from one start and dissect the first end that can be. */
    method TryStart(search: Search, visited: Visited, start: nat) returns (outcome: Outcome, end: Option<nat>, caps: Caps)
      requires Valid() && root != [] && start <= |search.s.text| && Table(search.s, visited)
      requires Based(TaskAt(search.s), visited.marked) && TriedBefore(search.s, start, visited.marked)
      modifies search, visited
      ensures Table(search.s, visited) && |caps| == slots && (outcome == Overflow ==> search.budget == 0)
      ensures groups == 0 && NoLooks(root) ==>
        old(search.budget) - search.budget <= 2 * (|visited.marked| - |old(visited.marked)|) + 1
      ensures outcome == Done && end.Some? ==>
        && Answer(search.s, top, Some((start, end.value)))
        && Leaves(search.s, top, start, end.value, Initial(slots, start, end.value), caps)
      ensures outcome == Done && end.None? ==>
        Based(TaskAt(search.s), visited.marked) && TriedBefore(search.s, start + 1, visited.marked)
    {
      hide Unit, Matches, SeqMarks, Leaves, Based, PlanOf, NoLooks, WellFormed, TriedBefore, FirstGood, Answer, Offered;
      ghost var s, before, nodes := search.s, visited.marked, [Group(Some(0), top)];
      end, caps := None, Initial(slots, start, start);
      RootMeans(s);
      var slotArray := new Option<nat>[slots](_ => None);
      var found;
      outcome, found := engine.Explore(root, search, start, slotArray, visited, overall == NoPref, nodes, sl);
      if outcome == Overflow { return; }
      ghost var marked := visited.marked;
      var ends := Candidates(found);
      FoundIsOffered(s, start, before, marked, found, ends);
      outcome, end, caps := FirstDissected(search, start, ends);
      if outcome == Overflow { return; }
      if end.Some? {
        TriedAll(s, start, before, ends, end.value);
      } else {
        if overall == NoPref && found != [] { NoPrefDissects(s, start, ends); }
        TriedOne(s, start, before, marked, ends);
      }
    }

    /**
     The match of a subject: where it starts and ends, and the captures the rules
     prescribe for that span, which are those of one of its parses.  It is the leftmost span that dissects and whose end ends no match
     from further left, the preferred one from there; that is the match an ARE
     prescribes exactly when it dissects.  It gives up only when no step of the
     budget is left.
     */
    method Exec(s: Subject) returns (outcome: Outcome, spans: Option<Spans>, ghost caps: Caps, ghost left: nat)
      requires Valid()
      ensures outcome == Done ==> Answer(s, top, SpanOf(spans))
      ensures outcome == Done && spans.Some? ==>
        && |spans.value| == groups + 1 && |caps| == slots && spans.value == SpansOf(caps, groups) && spans.value[0].Some?
        && var (start, end) := spans.value[0].value;
           && Leaves(s, top, start, end, Initial(slots, start, end), caps)
           && Parses(s, top, start, end, Initial(slots, start, end), caps)
           && (Numbered(top) ==> Laid(top, start, end, caps))
           && (Free(top, |s.text|) ==> Prescribed(s, top, start, end))
      ensures outcome == Done && spans.None? && Free(top, |s.text|) ==> forall i, j :: !Matches(s, top, i, j)
      ensures outcome == Overflow ==> left == 0
      ensures outcome == Overflow && groups == 0 && NoLooks(root) ==> BUDGET <= (2 * |root| + 1) * (|s.text| + 1)
    {
      outcome, spans, caps, left := Done, None, Initial(slots, 0, 0), BUDGET;
      var search := new Search(s, BUDGET);
      var visited := new Visited(|root|, |s.text| + 1);
      SearchStarts(s);
      NothingTried(s, visited.marked);
      hide Valid, Based, NoLooks, Free, Leaves, SpansOf, WellFormed, TriedBefore, Answer, Prescribed, Parses, Laid, Matches, Numbered, TaskAt;
      for start := 0 to |s.text| + 1
        invariant outcome == Done && search.s == s && fresh(search) && fresh(visited) && Table(s, visited)
        invariant Based(TaskAt(s), visited.marked) && TriedBefore(s, start, visited.marked)
        invariant groups == 0 && NoLooks(root) ==> BUDGET - search.budget <= 2 * |visited.marked| + start
      {
        var end, made;
        outcome, end, made := TryStart(search, visited, start);
        left := search.budget;
        if outcome == Overflow {
          PairsSpent(visited.marked, |s.text|, start);
          return;
        }
        if end.Some? {
          MatchIsLaid(s, start, end.value, made);
          caps := made;
          spans := Some(SpansOf(made, groups));
          FirstSpan(made);
          if Free(top, |s.text|) { FreeIsPrescribed(s, top, groups, Some((start, end.value))); }
          return;
        }
      }
      NothingFound(s, visited.marked);
      if Free(top, |s.text|) { FreeIsPrescribed(s, top, groups, None); }
    }

    lemma SearchStarts(s: Subject)
      requires Valid()
      ensures root != [] && Based(TaskAt(s), {}) && slots >= 2 && 2 * (groups + 1) <= slots
    {
      hide Unit, Linked, SeqMarks;
      UnitIsLinked(s, engine.Img(), root, [Group(Some(0), top)], groups, sl);
      EmptyFrontier(TaskAt(s));
    }

    /** A pattern with no preference is never in the way of its own dissection. */
    lemma NoPrefDissects(s: Subject, start: nat, ends: seq<nat>)
      requires Valid() && overall == NoPref && ends != [] && forall j :: j in ends ==> Matches(s, top, start, j)
      ensures !FirstGood(s, start, ends, None)
    {
      hide Matches, Unit, PlanOf;
      assert ends[0] in ends;
      NoPrefIsFree(top, groups, |s.text|);
      MatchedDissects(s, top, groups, start, ends[0]);
    }
  }

  /** The span of a whole match. */
  ghost function SpanOf(spans: Option<Spans>): Option<(nat, nat)> {
    if spans.None? || spans.value == [] then None else spans.value[0]
  }
}
