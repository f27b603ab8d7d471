/**
 What the rules come to for the patterns people write: which match an alternation,
 a greedy or a reluctant quantifier or a concatenation prefers, and what its
 groups hold.  The laws of the match are about `Answer`, those of the groups about
 the captures left by taking the match apart; on trees on which that never fails
 they speak of matches alone.
 */
module AreLaws {
  import opened Wrappers
  import opened AreSyntax
  import opened AreDissection
  import opened ArePlan
  import opened AreParse
  import opened AreRules
  import opened AreCompleteness
  import opened AreExec
  import opened AreFastPath

  // ----- the match

  /** No other end there was to choose from `start` is later. */
  ghost predicate IsLongest(s: Subject, n: Node, start: nat, end: nat) {
    forall j: nat :: Dissects(s, n, start, j) && !MatchedBefore(s, n, start, j) ==> j <= end
  }

  ghost predicate IsShortest(s: Subject, n: Node, start: nat, end: nat) {
    forall j: nat :: Dissects(s, n, start, j) && !MatchedBefore(s, n, start, j) ==> end <= j
  }

  /** From the leftmost start all ends are there to choose; of a free tree, all that match. */
  lemma LeftmostChoosesFromAll(s: Subject, n: Node, groups: nat, start: nat, j: nat)
    requires Leftmost(s, n, start) && Matches(s, n, start, j)
    ensures !MatchedBefore(s, n, start, j)
    ensures WellFormed(n, groups) && Free(n, |s.text|) ==> Dissects(s, n, start, j)
  {
    if WellFormed(n, groups) && Free(n, |s.text|) { MatchedDissects(s, n, groups, start, j); }
  }

  /** The match prefers what the first choice of the tree does. */
  lemma AnswerFollowsChoice(s: Subject, n: Node, groups: nat, start: nat, end: nat)
    requires Answer(s, n, Some((start, end))) && WellFormed(n, groups)
    ensures Reluctant(Choices(n)) || Choices(n) == [] ==> IsShortest(s, n, start, end)
    ensures !Reluctant(Choices(n)) ==> IsLongest(s, n, start, end)
  {
    FirstChoiceDecides(n);
    hide PrefOf, Choices, Dissects, MatchedBefore, Matches;
    forall j: nat | Dissects(s, n, start, j) && !MatchedBefore(s, n, start, j)
      ensures if Reluctant(Choices(n)) then end <= j else j <= end
      ensures Choices(n) == [] ==> j == end
    {
      assert Candidate(s, n, start, j);
      DissectsMatches(s, n, start, j);
      DissectsMatches(s, n, start, end);
      if Choices(n) == [] { NoPrefIsUnique(s, n, groups, start, j, end); }
    }
  }

  /** An alternation takes its longest match, whatever its branches. */
  lemma AlternationIsLongest(s: Subject, branches: seq<Node>, groups: nat, start: nat, end: nat)
    requires Answer(s, Alt(branches), Some((start, end))) && WellFormed(Alt(branches), groups)
    ensures IsLongest(s, Alt(branches), start, end)
  {
    hide Answer, WellFormed, IsLongest, IsShortest;
    AnswerFollowsChoice(s, Alt(branches), groups, start, end);
  }

  /** No quantifier is reluctant. */
  predicate AllGreedy(n: Node)
    decreases n
  {
    match n
    case Group(_, x) => AllGreedy(x)
    case Concat(items) => forall k | 0 <= k < |items| :: AllGreedy(items[k])
    case Alt(branches) => forall k | 0 <= k < |branches| :: AllGreedy(branches[k])
    case Repeat(x, _, _, greedy, bare) => (greedy || bare) && AllGreedy(x)
    case _ => true
  }

  /** There is no alternation, and no quantifier is greedy. */
  predicate AllReluctant(n: Node)
    decreases n
  {
    match n
    case Group(_, x) => AllReluctant(x)
    case Concat(items) => forall k | 0 <= k < |items| :: AllReluctant(items[k])
    case Alt(_) => false
    case Repeat(x, _, _, greedy, bare) => (!greedy || bare) && AllReluctant(x)
    case _ => true
  }

  lemma {:induction false} GreedyChoices(n: Node)
    requires AllGreedy(n)
    ensures forall x | x in Choices(n) :: !ReluctantChoice(x)
    decreases n, 0
  {
    match n
    case Group(_, x) => GreedyChoices(x);
    case Concat(items) => GreedyChoicesOf(items);
    case Repeat(x, _, _, _, _) => GreedyChoices(x);
    case _ =>
  }

  lemma {:induction false} GreedyChoicesOf(items: seq<Node>)
    requires forall k | 0 <= k < |items| :: AllGreedy(items[k])
    ensures forall x | x in ChoicesOf(items) :: !ReluctantChoice(x)
    decreases items, 0
  {
    if items != [] {
      GreedyChoices(items[0]);
      assert forall k :: 0 <= k < |items| - 1 ==> items[1..][k] == items[k + 1];
      GreedyChoicesOf(items[1..]);
    }
  }

  lemma {:induction false} ReluctantChoices(n: Node)
    requires AllReluctant(n)
    ensures forall x | x in Choices(n) :: ReluctantChoice(x)
    decreases n, 0
  {
    match n
    case Group(_, x) => ReluctantChoices(x);
    case Concat(items) => ReluctantChoicesOf(items);
    case Repeat(x, _, _, _, _) => ReluctantChoices(x);
    case _ =>
  }

  lemma {:induction false} ReluctantChoicesOf(items: seq<Node>)
    requires forall k | 0 <= k < |items| :: AllReluctant(items[k])
    ensures forall x | x in ChoicesOf(items) :: ReluctantChoice(x)
    decreases items, 0
  {
    if items != [] {
      ReluctantChoices(items[0]);
      assert forall k :: 0 <= k < |items| - 1 ==> items[1..][k] == items[k + 1];
      ReluctantChoicesOf(items[1..]);
    }
  }

  /** With greedy quantifiers only the match is the longest; with reluctant ones only, and no alternation, the shortest. */
  lemma OneKindOfQuantifier(s: Subject, n: Node, groups: nat, start: nat, end: nat)
    requires Answer(s, n, Some((start, end))) && WellFormed(n, groups)
    ensures AllGreedy(n) ==> IsLongest(s, n, start, end)
    ensures AllReluctant(n) ==> IsShortest(s, n, start, end)
  {
    AnswerFollowsChoice(s, n, groups, start, end);
    hide Answer, WellFormed, IsLongest, IsShortest, Choices, AllGreedy, AllReluctant;
    if AllGreedy(n) {
      GreedyChoices(n);
      if Choices(n) != [] { assert Choices(n)[0] in Choices(n); }
    }
    if AllReluctant(n) {
      ReluctantChoices(n);
      if Choices(n) != [] { assert Choices(n)[0] in Choices(n); }
    }
  }

  lemma {:induction false} ChoicesAfter(items: seq<Node>, k: nat)
    requires k < |items| && forall h | 0 <= h < k :: Choices(items[h]) == []
    ensures ChoicesOf(items) == Choices(items[k]) + ChoicesOf(items[k + 1..])
    decreases k
  {
    if k > 0 {
      assert items[1..][k - 1] == items[k] && items[1..][k..] == items[k + 1..];
      assert forall h :: 0 <= h < k - 1 ==> items[1..][h] == items[h + 1];
      ChoicesAfter(items[1..], k - 1);
    }
  }

  /** The quantifier is one that leaves a choice: not `{m}` and not `{0}`. */
  predicate Chooses(n: Node) {
    n.Alt? || (n.Repeat? && !n.bare && n.max != Some(0))
  }

  /**
   After items that leave no choice a concatenation prefers what its next item
   prefers: its longest match if that is an alternation or a greedy quantifier, its
   shortest if it is a reluctant one.
   */
  lemma ConcatPrefersNext(s: Subject, items: seq<Node>, k: nat, groups: nat, start: nat, end: nat)
    requires Answer(s, Concat(items), Some((start, end))) && WellFormed(Concat(items), groups)
    requires k < |items| && Chooses(items[k]) && forall h | 0 <= h < k :: Choices(items[h]) == []
    ensures items[k].Alt? || items[k].greedy ==> IsLongest(s, Concat(items), start, end)
    ensures items[k].Repeat? && !items[k].greedy ==> IsShortest(s, Concat(items), start, end)
  {
    hide Answer, WellFormed, IsLongest, IsShortest;
    ChoicesAfter(items, k);
    assert Choices(items[k]) == [items[k]] && Choices(Concat(items)) == ChoicesOf(items);
    AnswerFollowsChoice(s, Concat(items), groups, start, end);
  }

  /** An item that leaves no choice matches one length at most. */
  lemma NoChoiceIsOneLength(s: Subject, n: Node, groups: nat, i: nat, j: nat, k: nat)
    requires WellFormed(n, groups) && Choices(n) == [] && Matches(s, n, i, j) && Matches(s, n, i, k)
    ensures j == k
  {
    FirstChoiceDecides(n);
    NoPrefIsUnique(s, n, groups, i, j, k);
  }

  // ----- the groups

  /** Of the items after the `k`th from `m` on, and the `k`th from `a` to `m`. */
  ghost predicate MatchesCut(s: Subject, items: seq<Node>, k: nat, a: nat, j: nat, m: nat)
    requires k < |items|
  {
    Matches(s, items[k], a, m) && MatchesSeq(s, items[k + 1..], m, j)
  }

  lemma CutMatches(s: Subject, items: seq<Node>, k: nat, groups: nat, a: nat, j: nat, m: nat)
    requires k < |items| && forall x | x in items :: WellFormed(x, groups)
    ensures Cut(s, items, k, a, j, m) ==> MatchesCut(s, items, k, a, j, m)
    ensures FreeAll(items, |s.text|) && MatchesCut(s, items, k, a, j, m) ==> Cut(s, items, k, a, j, m)
  {
    if Cut(s, items, k, a, j, m) { DissectsSeqMatches(s, items[k + 1..], m, j); }
    if FreeAll(items, |s.text|) && MatchesCut(s, items, k, a, j, m) {
      FreeBranch(items, items[k], |s.text|);
      MatchedDissects(s, items[k], groups, a, m);
      FreeRest(items, k + 1, |s.text|);
      MatchedSeqDissects(s, items[k + 1..], groups, m, j);
    }
  }

  /**
   A group that is an item of the pattern ends as late as what follows it allows if
   it is an alternation or a greedy quantifier, as early if it is a reluctant one.
   */
  lemma GroupSpan(s: Subject, items: seq<Node>, k: nat, g: nat, groups: nat, slots: nat, i: nat, j: nat, caps: Caps)
      returns (a: nat, m: nat)
    requires 2 * (groups + 1) <= slots && Leaves(s, Concat(items), i, j, Initial(slots, i, j), caps)
    requires WellFormed(Concat(items), groups) && Numbered(Concat(items)) && g <= groups
    requires k < |items| && items[k].Group? && items[k].number == Some(g) && Chooses(items[k].inner)
    ensures |caps| == slots && SpansOf(caps, groups)[g] == Some((a, m)) && (k == 0 ==> a == i)
    ensures MatchesSeq(s, items[..k], i, a) && MatchesCut(s, items, k, a, j, m)
    ensures forall q: nat :: Cut(s, items, k, a, j, q) || (FreeAll(items, |s.text|) && MatchesCut(s, items, k, a, j, q)) ==>
      if items[k].inner.Repeat? && !items[k].inner.greedy then m <= q else q <= m
  {
    var c := Initial(slots, i, j);
    ConcatLeaves(s, items, k, i, j, c, caps);
    a, m := GroupTakesItsFill(s, items, k, g, groups, i, j, c, caps);
    SpanAt(caps, groups, g, a, m);
    assert Choices(items[k]) == [items[k].inner];
    hide Leaves, WellFormed, Numbered, Cut, MatchesCut, FreeAll, Choices, NumberedSeq, SpansOf, Matches, MatchesSeq;
    CutMatches(s, items, k, groups, a, j, m);
    forall q: nat ensures FreeAll(items, |s.text|) && MatchesCut(s, items, k, a, j, q) ==> Cut(s, items, k, a, j, q) {
      CutMatches(s, items, k, groups, a, j, q);
    }
  }

  lemma SpanAt(caps: Caps, groups: nat, g: nat, a: nat, m: nat)
    requires 2 * (groups + 1) <= |caps| && g <= groups && caps[2 * g] == Some(a) && caps[2 * g + 1] == Some(m)
    ensures SpansOf(caps, groups)[g] == Some((a, m))
  {
  }

  lemma ConcatLeaves(s: Subject, items: seq<Node>, k: nat, i: nat, j: nat, c: Caps, d: Caps)
    requires Leaves(s, Concat(items), i, j, c, d) && k < |items| && items[k].Group? && items[k].number.Some?
    ensures LeavesSeq(s, items, i, j, c, d) && j <= |s.text|
  {
    assert Captures(items[k]);
    assert Captures(Concat(items));
  }

  /** A repeated group holds its last copy, which starts as late as it can if the quantifier is greedy, as early if not. */
  lemma LastCopySpan(s: Subject, n: Node, g: nat, groups: nat, slots: nat, i: nat, j: nat, caps: Caps) returns (q: nat)
    requires 2 * (groups + 1) <= slots && Leaves(s, n, i, j, Initial(slots, i, j), caps)
    requires WellFormed(n, groups) && Numbered(n) && g <= groups
    requires n.Repeat? && n.min > 0 && n.inner.Group? && n.inner.number == Some(g)
    ensures |caps| == slots && SpansOf(caps, groups)[g] == Some((q, j))
    ensures Reps(s, n.inner, n.min - 1, More(n.min, n.max), i, q) && Matches(s, n.inner, q, j)
    ensures forall r: nat :: LastCopy(s, n.inner, n.min, n.max, i, j, r) ==> if n.greedy then r <= q else q <= r
    ensures Free(n, |s.text|) ==> forall r: nat ::
      Reps(s, n.inner, n.min - 1, More(n.min, n.max), i, r) && Matches(s, n.inner, r, j) ==> if n.greedy then r <= q else q <= r
  {
    q := LastCopyHolds(s, n, g, groups, i, j, Initial(slots, i, j), caps);
    if Free(n, |s.text|) {
      assert Captures(n) by { assert Captures(n.inner); }
      forall r: nat | Reps(s, n.inner, n.min - 1, More(n.min, n.max), i, r) && Matches(s, n.inner, r, j)
        ensures LastCopy(s, n.inner, n.min, n.max, i, j, r)
      {
        MatchedDissects(s, n.inner, groups, r, j);
      }
    }
  }

  /** The pattern takes its first branch that can be the span: a group that is that branch holds it, and those of others nothing. */
  lemma FirstBranchSpan(s: Subject, branches: seq<Node>, groups: nat, slots: nat, i: nat, j: nat, caps: Caps) returns (k: nat)
    requires 2 * (groups + 1) <= slots && Leaves(s, Alt(branches), i, j, Initial(slots, i, j), caps)
    requires WellFormed(Alt(branches), groups) && Numbered(Alt(branches)) && Captures(Alt(branches))
    ensures k < |branches| && Matches(s, branches[k], i, j) && |caps| == slots
    ensures forall h: nat :: h < k ==> !Dissects(s, branches[h], i, j)
    ensures FreeAll(branches, |s.text|) ==> forall h: nat :: h < k ==> !Matches(s, branches[h], i, j)
    ensures forall g: nat, x :: g <= groups && branches[k] == Group(Some(g), x) ==> SpansOf(caps, groups)[g] == Some((i, j))
    ensures forall g: nat :: 0 < g <= groups && g !in LiveGroups(branches[k]) ==> SpansOf(caps, groups)[g] == None
  {
    var c := Initial(slots, i, j);
    k := FirstBranchHolds(s, branches, groups, i, j, c, caps);
    BranchIsNumbered(branches, k);
    assert WellFormed(branches[k], groups);
    forall h: nat | h < k && FreeAll(branches, |s.text|) ensures !Matches(s, branches[h], i, j) {
      FreeBranch(branches, branches[h], |s.text|);
      if Matches(s, branches[h], i, j) { MatchedDissects(s, branches[h], groups, i, j); }
    }
    forall g: nat | 0 < g <= groups && g !in LiveGroups(branches[k]) ensures SpansOf(caps, groups)[g] == None {
      assert (2 * g) / 2 == g && c[2 * g] == None;
    }
  }

  lemma {:induction false} BranchIsNumbered(branches: seq<Node>, k: nat)
    requires NumberedSeq(branches) && k < |branches|
    ensures Numbered(branches[k])
    decreases k
  {
    if k > 0 { BranchIsNumbered(branches[1..], k - 1); }
  }

  /** `x` matches from each position to the next, never nothing. */
  ghost predicate Laps(s: Subject, x: Node, ends: seq<nat>)
    decreases |ends|
  {
    |ends| < 2 || (ends[0] < ends[1] && Matches(s, x, ends[0], ends[1]) && Laps(s, x, ends[1..]))
  }

  lemma {:induction false} LapsAreIterated(s: Subject, x: Node, groups: nat, ends: seq<nat>)
    requires WellFormed(x, groups) && Free(x, |s.text|) && Laps(s, x, ends)
    ensures Iterated(s, x, ends)
    decreases |ends|
  {
    if |ends| >= 2 {
      MatchedDissects(s, x, groups, ends[0], ends[1]);
      LapsAreIterated(s, x, groups, ends[1..]);
    }
  }

  /**
   A group that may be repeated holds the last of its iterations.  Of all the ways
   to divide the span into iterations that are not empty, as many as are allowed,
   the one it is the last of leads: where it first differs from another its
   iteration is longer, or shorter if the group prefers that.
   */
  lemma LastIterationSpan(s: Subject, n: Node, g: nat, groups: nat, slots: nat, i: nat, j: nat, caps: Caps) returns (ends: seq<nat>)
    requires 2 * (groups + 1) <= slots && Leaves(s, n, i, j, Initial(slots, i, j), caps)
    requires WellFormed(n, groups) && Numbered(n) && g <= groups && i < j
    requires n.Repeat? && n.min == 0 && n.max != Some(0) && n.inner.Group? && n.inner.number == Some(g)
    ensures |caps| == slots && |ends| >= 2 && SpansOf(caps, groups)[g] == Some((ends[|ends| - 2], j))
    ensures Division(s, n.inner, MaxMatches(n.max, i, j), ends, i, j)
    ensures Free(n, |s.text|) ==> forall others :: Divided(s, n, others, i, j) ==> Leads(Reluctant(Choices(n.inner)), ends, others)
  {
    ends := LastIterationHolds(s, n, g, groups, i, j, Initial(slots, i, j), caps);
    if Free(n, |s.text|) {
      assert Captures(n) by { assert Captures(n.inner); }
      FirstChoiceDecides(n.inner);
      assert Dissects(s, n, i, j);
      forall others | Divided(s, n, others, i, j) ensures Division(s, n.inner, MaxMatches(n.max, i, j), others, i, j) {
        DividedIsDivision(s, n, groups, others, i, j);
      }
    }
  }

  /** `ends` divides `[i, j)` into iterations of the body that are not empty, as many as are allowed. */
  ghost predicate Divided(s: Subject, n: Node, ends: seq<nat>, i: nat, j: nat)
    requires n.Repeat?
  {
    && |ends| >= 2 && ends[0] == i && ends[|ends| - 1] == j && Laps(s, n.inner, ends)
    && (n.max.Some? ==> |ends| <= n.max.value + 1)
  }

  lemma DividedIsDivision(s: Subject, n: Node, groups: nat, ends: seq<nat>, i: nat, j: nat)
    requires n.Repeat? && n.min == 0 && n.max != Some(0) && WellFormed(n, groups) && Captures(n) && Free(n, |s.text|)
    requires i < j <= |s.text| && Divided(s, n, ends, i, j)
    ensures Division(s, n.inner, MaxMatches(n.max, i, j), ends, i, j)
  {
    var x, m := n.inner, MaxMatches(n.max, i, j);
    FirstChoiceDecides(x);
    LapsAreIterated(s, x, groups, ends);
    assert Reluctant(Choices(x)) && n.max.Some? ==> n.max.value >= |s.text|;
    hide Dissects, Matches, Choices, Free, WellFormed, Captures;
    IteratedIsShort(s, x, ends);
    if Reluctant(Choices(x)) && |ends| == m + 1 { OneByOne(s, x, ends, m - 1); }
  }

  // ----- one length is not no choice

  /** `(?:a|b)c*?` */
  function LetterThenCs(): Node {
    Concat([Alt([Literal(97), Literal(98)]), Repeat(Literal(99), 0, None, false, false)])
  }

  function Acc(): Subject {
    Subject([97, 99, 99], false, false, false, {})
  }

  /**
   The first item matches one length at most and the next is reluctant, yet the
   longest match is the answer: the item leaves a choice, though not of length.
   */
  lemma OneLengthIsNotNoChoice(span: Option<(nat, nat)>)
    requires Answer(Acc(), LetterThenCs(), span)
    ensures forall s, i, j, k :: Matches(s, LetterThenCs().items[0], i, j) && Matches(s, LetterThenCs().items[0], i, k) ==> j == k
    ensures Matches(Acc(), LetterThenCs(), 0, 1) && span == Some((0, 3))
  {
    forall s, i, j, k | Matches(s, LetterThenCs().items[0], i, j) && Matches(s, LetterThenCs().items[0], i, k) ensures j == k {
    }
    LetterThenCsIs();
    LetterMatches(Acc(), LetterThenCs(), Literal(97), 1);
    LetterMatches(Acc(), LetterThenCs(), Literal(97), 3);
    hide *;
    LongestIsAnswered(Acc(), LetterThenCs(), span, 3);
  }

  lemma LetterThenCsIs()
    ensures Plain(LetterThenCs()) && PrefOf(LetterThenCs()) == Longest && |Acc().text| == 3
  {
    var items := LetterThenCs().items;
    assert Plain(items[0]) && Plain(items[1]) && PrefOf(items[0]) == Longest;
  }

  lemma LetterMatches(s: Subject, n: Node, a: Node, j: nat)
    requires s == Acc() && n == LetterThenCs() && a == Literal(97) && (j == 1 || j == 3)
    ensures Matches(s, n, 0, j)
  {
    var items, c := n.items, Literal(99);
    assert Matches(s, items[0], 0, 1) by { assert a in items[0].branches && Matches(s, a, 0, 1); }
    RepsIsRun(s, c, 0, None, 1, j);
    assert Matches(s, items[1], 1, j);
    assert items == [items[0], items[1]] && n == Concat(items);
    hide *;
    TwoItems(s, items, 0, 1, j);
  }

  lemma TwoItems(s: Subject, items: seq<Node>, i: nat, m: nat, j: nat)
    requires |items| == 2 && Matches(s, items[0], i, m) && Matches(s, items[1], m, j)
    ensures Matches(s, Concat(items), i, j)
  {
    hide Matches;
    assert items[1..] == [items[1]];
    MatchesSingleton(s, items[1], m, j);
    JoinSeq(s, items, i, m, j);
    SeqIsConcat(s, items, i, j);
  }

  lemma SeqIsConcat(s: Subject, items: seq<Node>, i: nat, j: nat)
    requires MatchesSeq(s, items, i, j)
    ensures Matches(s, Concat(items), i, j)
  {
    MatchesSeqBounds(s, items, i, j);
  }

  lemma LongestIsAnswered(s: Subject, n: Node, span: Option<(nat, nat)>, j: nat)
    requires Answer(s, n, span) && Plain(n) && PrefOf(n) == Longest && Matches(s, n, 0, j) && j == |s.text|
    ensures span == Some((0, j))
  {
    assert Dissects(s, n, 0, j);
    hide Matches, Dissects, Captures, PrefOf;
    LeftmostIsAnswered(s, n, span, 0, j);
    DissectsMatches(s, n, 0, span.value.1);
  }
}
