/**
 The rules of an ARE, for a tree and a subject alone: what a tree prefers, which
 spans can be taken apart, and which captures that leaves.  Nothing here is about
 plans, programs or searches; what the engine answers is proved to follow these
 rules, and what they say of a pattern's groups is drawn from them directly.
 */
module AreRules {
  import opened Wrappers
  import opened AreSyntax
  import opened AreDissection
  import opened ArePlan
  import opened AreParse

  // ----- what a tree prefers

  /**
   The choices a tree offers, in the order they are written: its alternations and
   its quantifiers, not those inside them.  An exact count `{m}` offers what its
   atom does, and what is quantified `{0}` is not there.
   */
  function Choices(n: Node): seq<Node>
    decreases n, 0
  {
    match n
    case Group(_, x) => Choices(x)
    case Concat(items) => ChoicesOf(items)
    case Alt(_) => [n]
    case Repeat(x, _, max, _, bare) => if max == Some(0) then [] else if bare then Choices(x) else [n]
    case _ => []
  }

  function ChoicesOf(items: seq<Node>): seq<Node>
    decreases items, 0
  {
    if items == [] then [] else Choices(items[0]) + ChoicesOf(items[1..])
  }

  predicate ReluctantChoice(n: Node) {
    n.Repeat? && !n.greedy
  }

  /** The first choice is a reluctant quantifier. */
  predicate Reluctant(choices: seq<Node>) {
    choices != [] && ReluctantChoice(choices[0])
  }

  /** The first choice decides what is preferred; without one nothing is. */
  lemma {:induction false} FirstChoiceDecides(n: Node)
    ensures PrefOf(n) == NoPref <==> Choices(n) == []
    ensures PrefOf(n) == Shortest <==> Reluctant(Choices(n))
    decreases n, 0
  {
    match n
    case Group(_, x) => FirstChoiceDecides(x);
    case Concat(items) => FirstChoiceOfSeq(items);
    case Repeat(x, _, _, _, _) => FirstChoiceDecides(x);
    case _ =>
  }

  lemma {:induction false} FirstChoiceOfSeq(items: seq<Node>)
    ensures PrefOfSeq(items) == NoPref <==> ChoicesOf(items) == []
    ensures PrefOfSeq(items) == Shortest <==> Reluctant(ChoicesOf(items))
    decreases items, 0
  {
    if items != [] {
      FirstChoiceDecides(items[0]);
      FirstChoiceOfSeq(items[1..]);
    }
  }

  // ----- which spans can be taken apart

  /** `[i, j)` is matched by `n` and can be taken apart. */
  ghost predicate Dissects(s: Subject, n: Node, i: nat, j: nat)
    decreases n, 0
  {
    && Matches(s, n, i, j)
    && (Captures(n) ==>
         match n
         case Group(_, x) => Dissects(s, x, i, j)
         case Concat(items) => DissectsSeq(s, items, i, j)
         case Alt(branches) => exists b :: b in branches && Dissects(s, b, i, j)
         case Repeat(x, min, max, _, _) =>
           if min > 0 then HasLastCopy(s, x, min, max, i, j) else i == j || Divisible(s, x, MaxMatches(max, i, j), i, j)
         case _ => true)
  }

  ghost predicate DissectsSeq(s: Subject, items: seq<Node>, i: nat, j: nat)
    decreases items, 1
  {
    if items == [] then i == j <= |s.text| else exists m: nat :: Split(s, items, i, j, m)
  }

  /** `m` can end the first part of `items`: an item that captures, or a run of items that do not. */
  ghost predicate Split(s: Subject, items: seq<Node>, i: nat, j: nat, m: nat)
    requires items != []
    decreases items, 0
  {
    && (if Captures(items[0]) then Dissects(s, items[0], i, m) else MatchesSeq(s, items[..PartLen(items)], i, m))
    && DissectsSeq(s, items[PartLen(items)..], m, j)
  }

  /** `q` can start the last copy of `x{min,max}`. */
  ghost predicate LastCopy(s: Subject, x: Node, min: nat, max: Option<nat>, i: nat, j: nat, q: nat)
    requires min > 0
    decreases x, 1
  {
    Reps(s, x, min - 1, More(min, max), i, q) && Dissects(s, x, q, j)
  }

  ghost predicate HasLastCopy(s: Subject, x: Node, min: nat, max: Option<nat>, i: nat, j: nat)
    requires min > 0
    decreases x, 2
  {
    exists q: nat :: LastCopy(s, x, min, max, i, j, q)
  }

  /** `x` can be iterated from each position to the next, never over nothing. */
  ghost predicate Iterated(s: Subject, x: Node, ends: seq<nat>)
    decreases x, 1, |ends|
  {
    |ends| < 2 || (ends[0] < ends[1] && Dissects(s, x, ends[0], ends[1]) && Iterated(s, x, ends[1..]))
  }

  ghost predicate NoShorter(s: Subject, x: Node, q: nat, j: nat) {
    forall f :: q < f < j ==> !Matches(s, x, q, f)
  }

  /**
   `ends` divides `[i, j)` into at most `m` iterations.  When the body is reluctant
   and no iteration is left over, the last is the shortest the body has there.
   */
  ghost predicate Division(s: Subject, x: Node, m: nat, ends: seq<nat>, i: nat, j: nat)
    decreases x, 2
  {
    && 2 <= |ends| <= m + 1 && ends[0] == i && ends[|ends| - 1] == j && Iterated(s, x, ends)
    && (Reluctant(Choices(x)) && |ends| == m + 1 ==> NoShorter(s, x, ends[m - 1], j))
  }

  ghost predicate Divisible(s: Subject, x: Node, m: nat, i: nat, j: nat)
    decreases x, 3
  {
    exists ends :: Division(s, x, m, ends, i, j)
  }

  lemma SomeSplit(s: Subject, items: seq<Node>, i: nat, j: nat) returns (m: nat)
    requires items != [] && DissectsSeq(s, items, i, j)
    ensures Split(s, items, i, j, m)
  {
    m :| Split(s, items, i, j, m);
  }

  lemma SplitDissects(s: Subject, items: seq<Node>, i: nat, j: nat, m: nat)
    requires items != [] && Split(s, items, i, j, m)
    ensures DissectsSeq(s, items, i, j)
  {
  }

  lemma SomeDivision(s: Subject, x: Node, m: nat, i: nat, j: nat) returns (ends: seq<nat>)
    requires Divisible(s, x, m, i, j)
    ensures Division(s, x, m, ends, i, j)
  {
    ends :| Division(s, x, m, ends, i, j);
  }

  // ----- which captures that leaves

  /** Where two divisions first differ the first has the preferred end. */
  predicate Leads(shorter: bool, a: seq<nat>, b: seq<nat>) {
    a != [] && b != [] ==> if a[0] == b[0] then Leads(shorter, a[1..], b[1..]) else Prefers(shorter, a[0], b[0])
  }

  /** The split that the first part prefers: the shortest it can have if its first choice is reluctant, the longest otherwise. */
  ghost predicate BestSplit(s: Subject, items: seq<Node>, i: nat, j: nat, m: nat)
    requires items != []
  {
    && Split(s, items, i, j, m)
    && forall q: nat :: Split(s, items, i, j, q) ==> if Reluctant(ChoicesOf(items[..PartLen(items)])) then m <= q else q <= m
  }

  /** The last copy starts as late as it can if the quantifier is greedy, and as early as it can otherwise. */
  ghost predicate BestCopy(s: Subject, x: Node, min: nat, max: Option<nat>, greedy: bool, i: nat, j: nat, q: nat)
    requires min > 0
  {
    LastCopy(s, x, min, max, i, j, q) && forall r: nat :: LastCopy(s, x, min, max, i, j, r) ==> if greedy then r <= q else q <= r
  }

  /** Each iteration in turn is as long as it can be, or as short if the body is reluctant. */
  ghost predicate BestDivision(s: Subject, x: Node, m: nat, ends: seq<nat>, i: nat, j: nat) {
    && Division(s, x, m, ends, i, j)
    && forall others :: Division(s, x, m, others, i, j) ==> Leads(Reluctant(Choices(x)), ends, others)
  }

  /** The branches before the `k`th cannot be `[i, j)`, and it can. */
  ghost predicate FirstBranch(s: Subject, branches: seq<Node>, i: nat, j: nat, k: nat) {
    k < |branches| && Dissects(s, branches[k], i, j) && forall h: nat :: h < k ==> !Dissects(s, branches[h], i, j)
  }

  /** Taking `[i, j)` apart as `n` turns the captures `c` into `d`. */
  ghost predicate Leaves(s: Subject, n: Node, i: nat, j: nat, c: Caps, d: Caps)
    decreases n, 0
  {
    && Dissects(s, n, i, j)
    && if Plain(n) then d == c
       else
         match n
         case Group(None, x) => Leaves(s, x, i, j, c, d)
         case Group(Some(g), x) => Leaves(s, x, i, j, SetSpan(c, g, Some(i), Some(j)), d)
         case Concat(items) => LeavesSeq(s, items, i, j, c, d)
         case Alt(branches) => exists k: nat :: FirstBranch(s, branches, i, j, k) && Leaves(s, branches[k], i, j, c, d)
         case Repeat(x, min, max, greedy, _) =>
           if min > 0 then LeavesCopy(s, x, min, max, greedy, i, j, c, d)
           else if i == j then d == c
           else LeavesDivision(s, x, MaxMatches(max, i, j), i, j, c, d)
         case _ => d == c
  }

  ghost predicate LeavesSeq(s: Subject, items: seq<Node>, i: nat, j: nat, c: Caps, d: Caps)
    decreases items, 0
  {
    if items == [] then i == j && d == c
    else exists m: nat, e: Caps :: BestSplit(s, items, i, j, m) && LeavesPart(s, items, i, m, c, e) && LeavesSeq(s, items[PartLen(items)..], m, j, e, d)
  }

  ghost predicate LeavesPart(s: Subject, items: seq<Node>, i: nat, m: nat, c: Caps, e: Caps)
    requires items != []
    decreases items[0], 1
  {
    if Captures(items[0]) then Leaves(s, items[0], i, m, c, e) else e == c
  }

  /** Only the last copy leaves captures, and it starts from none. */
  ghost predicate LeavesCopy(s: Subject, x: Node, min: nat, max: Option<nat>, greedy: bool, i: nat, j: nat, c: Caps, d: Caps)
    requires min > 0
    decreases x, 1
  {
    exists q: nat :: BestCopy(s, x, min, max, greedy, i, j, q) && Leaves(s, x, q, j, Forgotten(LiveGroups(x), c), d)
  }

  ghost predicate LeavesDivision(s: Subject, x: Node, m: nat, i: nat, j: nat, c: Caps, d: Caps)
    decreases x, 1
  {
    exists ends :: BestDivision(s, x, m, ends, i, j) && Leaves(s, x, ends[|ends| - 2], j, Forgotten(LiveGroups(x), c), d)
  }

  // ----- a dissection is a match, and leaves the captures of a parse

  lemma PartMatches(s: Subject, items: seq<Node>, i: nat, m: nat, j: nat)
    requires items != [] && Split(s, items, i, j, m)
    ensures MatchesSeq(s, items[..PartLen(items)], i, m)
  {
    if Captures(items[0]) {
      assert items[..1] == [items[0]];
      MatchesSingleton(s, items[0], i, m);
    }
  }

  lemma {:induction false} DissectsSeqMatches(s: Subject, items: seq<Node>, i: nat, j: nat)
    requires DissectsSeq(s, items, i, j)
    ensures MatchesSeq(s, items, i, j)
    decreases items
  {
    if items != [] {
      var l := PartLen(items);
      var m: nat :| Split(s, items, i, j, m);
      DissectsSeqMatches(s, items[l..], m, j);
      PartMatches(s, items, i, m, j);
      assert items[..l] + items[l..] == items;
      AppendSeq(s, items[..l], items[l..], i, m, j);
    }
  }

  lemma {:induction false} IteratedCopies(s: Subject, x: Node, ends: seq<nat>, k: nat)
    requires Iterated(s, x, ends) && k < |ends| && ends[0] <= |s.text|
    ensures Copies(s, x, k, ends[0], ends[k])
    decreases k
  {
    if k > 0 {
      IteratedCopies(s, x, ends[1..], k - 1);
      JoinCopies(s, x, k, ends[0], ends[1], ends[k]);
    }
  }

  lemma {:induction false} LeavesParses(s: Subject, n: Node, groups: nat, i: nat, j: nat, c: Caps, d: Caps)
    requires Leaves(s, n, i, j, c, d) && WellFormed(n, groups)
    ensures Parses(s, n, i, j, c, d)
    decreases n, 0
  {
    if Captures(n) {
      match n
      case Group(None, x) => LeavesParses(s, x, groups, i, j, c, d);
      case Group(Some(g), x) => LeavesParses(s, x, groups, i, j, SetSpan(c, g, Some(i), Some(j)), d);
      case Concat(items) => LeavesSeqParses(s, items, groups, i, j, c, d);
      case Alt(branches) =>
        var k: nat :| FirstBranch(s, branches, i, j, k) && Leaves(s, branches[k], i, j, c, d);
        LeavesParses(s, branches[k], groups, i, j, c, d);
      case Repeat(x, min, max, greedy, _) => LeavesRepeatParses(s, n, groups, i, j, c, d);
      case _ =>
    }
  }

  /** The case of `LeavesParses` for a quantifier. */
  lemma {:induction false} LeavesRepeatParses(s: Subject, n: Node, groups: nat, i: nat, j: nat, c: Caps, d: Caps)
    requires n.Repeat? && Captures(n) && Leaves(s, n, i, j, c, d) && WellFormed(n, groups)
    ensures Parses(s, n, i, j, c, d)
    decreases n.inner, 1
  {
    var (x, min, max, f) := (n.inner, n.min, n.max, Forgotten(LiveGroups(n.inner), c));
    assert Matches(s, n, i, j) && i <= j <= |s.text| && max != Some(0) && Captures(x) && WellFormed(x, groups);
    assert max.Some? ==> min <= max.value;
    if min == 0 && i == j {
      assert d == c;
      return;
    }
    var k, q;
    if min > 0 {
      q := CopyOf(s, n, i, j, c, d);
      hide *;
      k := CopiesBefore(s, x, min, max, i, j, q, n.greedy);
    } else {
      var ends := DivisionOf(s, n, i, j, c, d);
      hide *;
      k, q := IterationsBefore(s, x, max, ends, i, j);
    }
    LeavesParses(s, x, groups, q, j, f, d);
    JoinLast(s, x, min, max, k, i, q, j, c, d);
    ParsesByLast(s, n, i, j, c, d);
  }

  lemma ParsesByLast(s: Subject, n: Node, i: nat, j: nat, c: Caps, d: Caps)
    requires n.Repeat? && Captures(n) && ParsesLast(s, n.inner, n.min, n.max, i, j, c, d)
    ensures Parses(s, n, i, j, c, d)
  {
    hide Captures, ParsesLast;
  }

  lemma CopiesBefore(s: Subject, x: Node, min: nat, max: Option<nat>, i: nat, j: nat, q: nat, greedy: bool) returns (k: nat)
    requires min > 0 && BestCopy(s, x, min, max, greedy, i, j, q) && (max.Some? ==> min <= max.value)
    ensures min <= k + 1 && (max.Some? ==> k + 1 <= max.value) && Copies(s, x, k, i, q)
  {
    hide Matches, Dissects;
    k := CountOf(s, x, min - 1, More(min, max), i, q);
  }

  lemma IterationsBefore(s: Subject, x: Node, max: Option<nat>, ends: seq<nat>, i: nat, j: nat) returns (k: nat, q: nat)
    requires i < j <= |s.text| && max != Some(0) && BestDivision(s, x, MaxMatches(max, i, j), ends, i, j)
    ensures |ends| >= 2 && q == ends[|ends| - 2] && (max.Some? ==> k + 1 <= max.value) && Copies(s, x, k, i, q)
  {
    hide Dissects, Iterated, Copies;
    k, q := |ends| - 2, ends[|ends| - 2];
    IteratedCopies(s, x, ends, k);
  }

  lemma {:induction false} LeavesSeqParses(s: Subject, items: seq<Node>, groups: nat, i: nat, j: nat, c: Caps, d: Caps)
    requires LeavesSeq(s, items, i, j, c, d) && j <= |s.text| && forall x | x in items :: WellFormed(x, groups)
    ensures ParsesSeq(s, items, i, j, c, d)
    decreases items, 0
  {
    if items != [] {
      var l := PartLen(items);
      var m: nat, e: Caps :| BestSplit(s, items, i, j, m) && LeavesPart(s, items, i, m, c, e) && LeavesSeq(s, items[l..], m, j, e, d);
      if Captures(items[0]) {
        LeavesParses(s, items[0], groups, i, m, c, e);
        assert items[..l] == [items[0]];
        ParsesOne(s, items[0], i, m, c, e);
      } else {
        PartIsPlain(items);
        PlainSeqParses(s, items[..l], i, m, c);
      }
      LeavesSeqParses(s, items[l..], groups, m, j, e, d);
      assert items[..l] + items[l..] == items;
      ParsesAppend(s, items[..l], items[l..], i, m, j, c, e, d);
    }
  }

  // ----- the rules leave no choice

  lemma {:induction false} LeadersAgree(shorter: bool, a: seq<nat>, b: seq<nat>, s: Subject, x: Node)
    requires a != [] && b != [] && a[0] == b[0] && a[|a| - 1] == b[|b| - 1] && Iterated(s, x, a) && Iterated(s, x, b)
    requires Leads(shorter, a, b) && Leads(shorter, b, a)
    ensures a == b
    decreases |a|
  {
    if |a| == 1 {
      if |b| > 1 { IteratedRises(s, x, b); }
    } else if |b| == 1 {
      IteratedRises(s, x, a);
    } else {
      assert a[1..][0] == a[1] && b[1..][0] == b[1];
      LeadersAgree(shorter, a[1..], b[1..], s, x);
      assert a == [a[0]] + a[1..] && b == [b[0]] + b[1..];
    }
  }

  lemma {:induction false} IteratedRises(s: Subject, x: Node, ends: seq<nat>)
    requires |ends| >= 2 && Iterated(s, x, ends)
    ensures ends[0] < ends[1] <= ends[|ends| - 1]
    decreases |ends|
  {
    if |ends| > 2 { IteratedRises(s, x, ends[1..]); }
  }

  /** One outcome is left of taking a span apart. */
  lemma {:induction false} LeavesIsUnique(s: Subject, n: Node, i: nat, j: nat, c: Caps, d: Caps, d': Caps)
    requires Leaves(s, n, i, j, c, d) && Leaves(s, n, i, j, c, d')
    ensures d == d'
    decreases n, 0
  {
    if Captures(n) {
      match n
      case Group(None, x) => LeavesIsUnique(s, x, i, j, c, d, d');
      case Group(Some(g), x) => LeavesIsUnique(s, x, i, j, SetSpan(c, g, Some(i), Some(j)), d, d');
      case Concat(items) => LeavesSeqIsUnique(s, items, i, j, c, d, d');
      case Alt(branches) =>
        var k: nat :| FirstBranch(s, branches, i, j, k) && Leaves(s, branches[k], i, j, c, d);
        var k': nat :| FirstBranch(s, branches, i, j, k') && Leaves(s, branches[k'], i, j, c, d');
        assert k == k';
        LeavesIsUnique(s, branches[k], i, j, c, d, d');
      case Repeat(x, min, max, greedy, _) =>
        if min > 0 {
          var q: nat :| BestCopy(s, x, min, max, greedy, i, j, q) && Leaves(s, x, q, j, Forgotten(LiveGroups(x), c), d);
          var q': nat :| BestCopy(s, x, min, max, greedy, i, j, q') && Leaves(s, x, q', j, Forgotten(LiveGroups(x), c), d');
          assert q == q';
          LeavesIsUnique(s, x, q, j, Forgotten(LiveGroups(x), c), d, d');
        } else if i < j {
          var m := MaxMatches(max, i, j);
          var a :| BestDivision(s, x, m, a, i, j) && Leaves(s, x, a[|a| - 2], j, Forgotten(LiveGroups(x), c), d);
          var b :| BestDivision(s, x, m, b, i, j) && Leaves(s, x, b[|b| - 2], j, Forgotten(LiveGroups(x), c), d');
          LeadersAgree(Reluctant(Choices(x)), a, b, s, x);
          LeavesIsUnique(s, x, a[|a| - 2], j, Forgotten(LiveGroups(x), c), d, d');
        }
      case _ =>
    }
  }

  lemma {:induction false} LeavesSeqIsUnique(s: Subject, items: seq<Node>, i: nat, j: nat, c: Caps, d: Caps, d': Caps)
    requires LeavesSeq(s, items, i, j, c, d) && LeavesSeq(s, items, i, j, c, d')
    ensures d == d'
    decreases items, 0
  {
    if items != [] {
      var l := PartLen(items);
      var m: nat, e: Caps :| BestSplit(s, items, i, j, m) && LeavesPart(s, items, i, m, c, e) && LeavesSeq(s, items[l..], m, j, e, d);
      var m': nat, e': Caps :| BestSplit(s, items, i, j, m') && LeavesPart(s, items, i, m', c, e') && LeavesSeq(s, items[l..], m', j, e', d');
      assert m == m';
      if Captures(items[0]) { LeavesIsUnique(s, items[0], i, m, c, e, e'); }
      LeavesSeqIsUnique(s, items[l..], m, j, e, d, d');
    }
  }

  // ----- what the groups of a pattern hold

  /** A group holds the span it was taken apart from. */
  lemma GroupHolds(s: Subject, g: nat, x: Node, groups: nat, i: nat, j: nat, c: Caps, d: Caps)
    requires Leaves(s, Group(Some(g), x), i, j, c, d) && WellFormed(x, groups) && Numbered(Group(Some(g), x)) && 2 * g + 1 < |c|
    ensures |d| == |c| && d[2 * g] == Some(i) && d[2 * g + 1] == Some(j)
  {
    hide Leaves, Parses, WellFormed;
    LeavesInner(s, g, x, i, j, c, d);
    var e := SetSpan(c, g, Some(i), Some(j));
    LeavesParses(s, x, groups, i, j, e, d);
    ParsesTouches(s, x, i, j, e, d);
    assert (2 * g) / 2 == g && (2 * g + 1) / 2 == g;
  }

  lemma LeavesInner(s: Subject, g: nat, x: Node, i: nat, j: nat, c: Caps, d: Caps)
    requires Leaves(s, Group(Some(g), x), i, j, c, d)
    ensures Leaves(s, x, i, j, SetSpan(c, g, Some(i), Some(j)), d)
  {
  }

  /** An item that captures is the whole of the part it is in. */
  lemma FirstPart(items: seq<Node>, k: nat)
    requires k < |items| && Captures(items[k]) && k < PartLen(items)
    ensures k == 0 && PartLen(items) == 1
  {
    hide Captures;
    assert items[..PartLen(items)][k] == items[k];
    if Plain(items[0]) { PartIsPlain(items); }
  }

  lemma {:induction false} RestIsNumbered(items: seq<Node>, k: nat)
    requires NumberedSeq(items) && k <= |items|
    ensures NumberedSeq(items[k..])
    decreases k
  {
    if k > 0 {
      RestIsNumbered(items[1..], k - 1);
      assert items[1..][k - 1..] == items[k..];
    }
  }

  lemma PartTouches(s: Subject, items: seq<Node>, groups: nat, i: nat, m: nat, c: Caps, e: Caps)
    requires items != [] && LeavesPart(s, items, i, m, c, e) && WellFormed(items[0], groups)
    ensures |e| == |c|
  {
    if Captures(items[0]) {
      LeavesParses(s, items[0], groups, i, m, c, e);
      ParsesTouches(s, items[0], i, m, c, e);
    }
  }

  /** The item before a cut and the items after it can be `[a, j)`, cut at `q`. */
  ghost predicate Cut(s: Subject, items: seq<Node>, k: nat, a: nat, j: nat, q: nat)
    requires k < |items|
  {
    Dissects(s, items[k], a, q) && DissectsSeq(s, items[k + 1..], q, j)
  }

  /** The end the rules prefer for an item that starts at `a`. */
  ghost predicate BestCut(s: Subject, items: seq<Node>, k: nat, a: nat, j: nat, m: nat)
    requires k < |items|
  {
    && Cut(s, items, k, a, j, m)
    && forall q: nat :: Cut(s, items, k, a, j, q) ==> if Reluctant(Choices(items[k])) then m <= q else q <= m
  }

  lemma FirstCut(s: Subject, items: seq<Node>, i: nat, j: nat, m: nat)
    requires items != [] && Captures(items[0]) && BestSplit(s, items, i, j, m)
    ensures BestCut(s, items, 0, i, j, m)
  {
    hide Captures, Dissects, DissectsSeq;
    var part := items[..1];
    assert part == [items[0]] && part[1..] == [];
    assert ChoicesOf(part) == Choices(items[0]);
    forall q: nat ensures Cut(s, items, 0, i, j, q) <==> Split(s, items, i, j, q) {
    }
  }

  lemma LaterCut(s: Subject, items: seq<Node>, l: nat, k: nat, a: nat, j: nat, m: nat)
    requires l <= k < |items| && BestCut(s, items[l..], k - l, a, j, m)
    ensures BestCut(s, items, k, a, j, m)
  {
    hide Dissects, DissectsSeq, Choices;
    assert items[l..][k - l] == items[k] && items[l..][k - l + 1..] == items[k + 1..];
    forall q: nat ensures Cut(s, items, k, a, j, q) <==> Cut(s, items[l..], k - l, a, j, q) {
    }
  }

  /** The first part of a sequence that is taken apart, and the rest. */
  lemma FirstLeaves(s: Subject, items: seq<Node>, groups: nat, i: nat, j: nat, c: Caps, d: Caps) returns (m: nat, e: Caps)
    requires items != [] && LeavesSeq(s, items, i, j, c, d) && j <= |s.text| && forall x | x in items :: WellFormed(x, groups)
    ensures BestSplit(s, items, i, j, m) && LeavesPart(s, items, i, m, c, e) && LeavesSeq(s, items[PartLen(items)..], m, j, e, d)
    ensures |e| == |c| && MatchesSeq(s, items[..PartLen(items)], i, m)
    ensures Touches(SeqGroups(items[PartLen(items)..]), e, d)
  {
    m, e :| BestSplit(s, items, i, j, m) && LeavesPart(s, items, i, m, c, e) && LeavesSeq(s, items[PartLen(items)..], m, j, e, d);
    hide Captures, Dissects, Leaves, LeavesSeq;
    PartTouches(s, items, groups, i, m, c, e);
    PartMatches(s, items, i, m, j);
    LeavesSeqParses(s, items[PartLen(items)..], groups, m, j, e, d);
    ParsesSeqTouches(s, items[PartLen(items)..], m, j, e, d);
  }

  lemma FirstHolds(s: Subject, items: seq<Node>, g: nat, groups: nat, i: nat, m: nat, c: Caps, e: Caps, d: Caps)
    requires items != [] && items[0].Group? && items[0].number == Some(g) && NumberedSeq(items) && WellFormed(items[0], groups)
    requires LeavesPart(s, items, i, m, c, e) && Touches(SeqGroups(items[1..]), e, d) && 2 * g + 1 < |c|
    ensures |d| == |c| && d[2 * g] == Some(i) && d[2 * g + 1] == Some(m)
  {
    var x := items[0].inner;
    assert items[0] == Group(Some(g), x) && Captures(items[0]);
    GroupHolds(s, g, x, groups, i, m, c, e);
    hide Leaves, WellFormed, Captures, Numbered;
    assert g in LiveGroups(items[0]) && (2 * g) / 2 == g && (2 * g + 1) / 2 == g;
  }

  lemma {:induction false} GroupIsCut(s: Subject, items: seq<Node>, k: nat, g: nat, groups: nat, i: nat, j: nat, c: Caps, d: Caps)
      returns (a: nat, m: nat)
    requires LeavesSeq(s, items, i, j, c, d) && j <= |s.text| && (forall x | x in items :: WellFormed(x, groups)) && NumberedSeq(items)
    requires k < |items| && items[k].Group? && items[k].number == Some(g) && 2 * g + 1 < |c|
    ensures |d| == |c| && d[2 * g] == Some(a) && d[2 * g + 1] == Some(m) && (k == 0 ==> a == i)
    ensures MatchesSeq(s, items[..k], i, a) && BestCut(s, items, k, a, j, m)
    decreases |items|
  {
    var l := PartLen(items);
    var n, e := FirstLeaves(s, items, groups, i, j, c, d);
    if k < l {
      FirstPart(items, k);
      a, m := i, n;
      FirstCut(s, items, i, j, n);
      FirstHolds(s, items, g, groups, i, n, c, e, d);
    } else {
      hide Captures, Dissects, Leaves, LeavesSeq, BestSplit, LeavesPart, BestCut, WellFormed, Matches;
      var rest := items[l..];
      RestIsNumbered(items, l);
      assert rest[k - l] == items[k] && items[..k] == items[..l] + rest[..k - l];
      a, m := GroupIsCut(s, rest, k - l, g, groups, n, j, e, d);
      LaterCut(s, items, l, k, a, j, m);
      AppendSeq(s, items[..l], rest[..k - l], i, n, a);
    }
  }

  /**
   Any group that is an item of a concatenation ends as late as the items after it
   allow, or as early if its first choice is a reluctant quantifier.
   */
  lemma GroupTakesItsFill(s: Subject, items: seq<Node>, k: nat, g: nat, groups: nat, i: nat, j: nat, c: Caps, d: Caps)
      returns (a: nat, m: nat)
    requires LeavesSeq(s, items, i, j, c, d) && j <= |s.text| && (forall x | x in items :: WellFormed(x, groups)) && NumberedSeq(items)
    requires k < |items| && items[k].Group? && items[k].number == Some(g) && 2 * g + 1 < |c|
    ensures |d| == |c| && d[2 * g] == Some(a) && d[2 * g + 1] == Some(m) && (k == 0 ==> a == i)
    ensures MatchesSeq(s, items[..k], i, a) && Cut(s, items, k, a, j, m)
    ensures forall q: nat :: Cut(s, items, k, a, j, q) ==> if Reluctant(Choices(items[k])) then m <= q else q <= m
  {
    hide Dissects, Leaves, LeavesSeq, Cut, WellFormed, Choices, Matches;
    a, m := GroupIsCut(s, items, k, g, groups, i, j, c, d);
  }

  lemma {:induction false} PlainRun(items: seq<Node>, k: nat)
    requires 0 < k < |items| && Captures(items[k]) && forall h | 0 <= h < k :: Plain(items[h])
    ensures PartLen(items) == k
    decreases k
  {
    if k > 1 {
      assert items[1..][k - 1] == items[k] && forall h :: 0 <= h < k - 1 ==> items[1..][h] == items[h + 1];
      PlainRun(items[1..], k - 1);
    }
  }

  /**
   A group after items that capture nothing starts as late as they can end, or as
   early if the first choice among them is a reluctant quantifier.
   */
  lemma RunTakesItsFill(s: Subject, items: seq<Node>, k: nat, g: nat, groups: nat, i: nat, j: nat, c: Caps, d: Caps) returns (a: nat)
    requires LeavesSeq(s, items, i, j, c, d) && j <= |s.text| && (forall x | x in items :: WellFormed(x, groups)) && NumberedSeq(items)
    requires 0 < k < |items| && items[k].Group? && items[k].number == Some(g) && 2 * g + 1 < |c|
    requires forall h | 0 <= h < k :: Plain(items[h])
    ensures |d| == |c| && d[2 * g] == Some(a) && MatchesSeq(s, items[..k], i, a) && DissectsSeq(s, items[k..], a, j)
    ensures forall q: nat :: MatchesSeq(s, items[..k], i, q) && DissectsSeq(s, items[k..], q, j) ==>
      if Reluctant(ChoicesOf(items[..k])) then a <= q else q <= a
  {
    PlainRun(items, k);
    var n, e := FirstLeaves(s, items, groups, i, j, c, d);
    assert Plain(items[0]) && items[k..][0] == items[k];
    forall q: nat ensures Split(s, items, i, j, q) <==> MatchesSeq(s, items[..k], i, q) && DissectsSeq(s, items[k..], q, j) {
    }
    hide Captures, Dissects, Leaves, LeavesSeq, DissectsSeq, WellFormed, Matches, MatchesSeq, ChoicesOf;
    RestIsNumbered(items, k);
    var m;
    a, m := GroupTakesItsFill(s, items[k..], 0, g, groups, n, j, e, d);
  }

  lemma CopyOf(s: Subject, n: Node, i: nat, j: nat, c: Caps, d: Caps) returns (q: nat)
    requires n.Repeat? && n.min > 0 && n.max != Some(0) && Captures(n.inner) && Leaves(s, n, i, j, c, d)
    ensures BestCopy(s, n.inner, n.min, n.max, n.greedy, i, j, q) && Leaves(s, n.inner, q, j, Forgotten(LiveGroups(n.inner), c), d)
  {
    assert Captures(n);
    hide Captures, Dissects, BestCopy, LiveGroups;
    match n
    case Repeat(x, min, max, greedy, _) =>
      q :| BestCopy(s, x, min, max, greedy, i, j, q) && Leaves(s, x, q, j, Forgotten(LiveGroups(x), c), d);
  }

  lemma DivisionOf(s: Subject, n: Node, i: nat, j: nat, c: Caps, d: Caps) returns (ends: seq<nat>)
    requires n.Repeat? && n.min == 0 && n.max != Some(0) && Captures(n.inner) && Leaves(s, n, i, j, c, d) && i < j
    ensures BestDivision(s, n.inner, MaxMatches(n.max, i, j), ends, i, j)
    ensures Leaves(s, n.inner, ends[|ends| - 2], j, Forgotten(LiveGroups(n.inner), c), d)
  {
    assert Captures(n);
    hide Captures, Dissects, LiveGroups;
    match n
    case Repeat(x, min, max, greedy, _) =>
      ends :| BestDivision(s, x, MaxMatches(max, i, j), ends, i, j) && Leaves(s, x, ends[|ends| - 2], j, Forgotten(LiveGroups(x), c), d);
  }

  /** A group repeated at least once holds the last copy, started as late as it can if greedy and as early if not. */
  lemma LastCopyHolds(s: Subject, n: Node, g: nat, groups: nat, i: nat, j: nat, c: Caps, d: Caps) returns (q: nat)
    requires n.Repeat? && n.min > 0 && n.inner.Group? && n.inner.number == Some(g) && WellFormed(n, groups) && Numbered(n)
    requires Leaves(s, n, i, j, c, d) && 2 * g + 1 < |c|
    ensures |d| == |c| && d[2 * g] == Some(q) && d[2 * g + 1] == Some(j)
    ensures LastCopy(s, n.inner, n.min, n.max, i, j, q)
    ensures forall r: nat :: LastCopy(s, n.inner, n.min, n.max, i, j, r) ==> if n.greedy then r <= q else q <= r
  {
    var x, f := n.inner, Forgotten(LiveGroups(n.inner), c);
    q := CopyOf(s, n, i, j, c, d);
    GroupHolds(s, g, x.inner, groups, q, j, f, d);
  }

  /** A group repeated from zero times on holds the last iteration of the division that leads all others. */
  lemma LastIterationHolds(s: Subject, n: Node, g: nat, groups: nat, i: nat, j: nat, c: Caps, d: Caps) returns (ends: seq<nat>)
    requires n.Repeat? && n.min == 0 && n.max != Some(0) && n.inner.Group? && n.inner.number == Some(g)
    requires WellFormed(n, groups) && Numbered(n) && Leaves(s, n, i, j, c, d) && i < j && 2 * g + 1 < |c|
    ensures |ends| >= 2 && |d| == |c| && d[2 * g] == Some(ends[|ends| - 2]) && d[2 * g + 1] == Some(j)
    ensures Division(s, n.inner, MaxMatches(n.max, i, j), ends, i, j)
    ensures forall others :: Division(s, n.inner, MaxMatches(n.max, i, j), others, i, j) ==>
      Leads(Reluctant(Choices(n.inner)), ends, others)
  {
    var x, f := n.inner, Forgotten(LiveGroups(n.inner), c);
    ends := DivisionOf(s, n, i, j, c, d);
    GroupHolds(s, g, x.inner, groups, ends[|ends| - 2], j, f, d);
  }

  /** The first branch that can be the span is the one that is taken: its groups are set, and no others change. */
  lemma FirstBranchHolds(s: Subject, branches: seq<Node>, groups: nat, i: nat, j: nat, c: Caps, d: Caps) returns (k: nat)
    requires Captures(Alt(branches)) && WellFormed(Alt(branches), groups) && Leaves(s, Alt(branches), i, j, c, d)
    ensures FirstBranch(s, branches, i, j, k) && Parses(s, branches[k], i, j, c, d) && Touches(LiveGroups(branches[k]), c, d)
    ensures forall g: nat, x :: branches[k] == Group(Some(g), x) && Numbered(branches[k]) && 2 * g + 1 < |c| ==>
      d[2 * g] == Some(i) && d[2 * g + 1] == Some(j)
  {
    var n := Alt(branches);
    k :| FirstBranch(s, branches, i, j, k) && Leaves(s, branches[k], i, j, c, d);
    LeavesParses(s, branches[k], groups, i, j, c, d);
    ParsesTouches(s, branches[k], i, j, c, d);
    forall g: nat, x | branches[k] == Group(Some(g), x) && Numbered(branches[k]) && 2 * g + 1 < |c|
      ensures d[2 * g] == Some(i) && d[2 * g + 1] == Some(j)
    {
      GroupHolds(s, g, x, groups, i, j, c, d);
    }
  }
}
