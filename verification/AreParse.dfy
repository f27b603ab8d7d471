/**
 What captures mean.  `Parses` says which captures a parse of a span may leave,
 in terms of the pattern alone: a group holds the span it matched, and of an
 iteration only the last one is remembered.  What dissection leaves is always
 one of these, and such captures are nested and ordered as the groups are.
 */
module AreParse {
  import opened Wrappers
  import opened AreSyntax
  import opened AreDissection
  import opened ArePlan

  // ----- the groups of a tree

  /** The capturing groups a dissection can set. */
  function LiveGroups(n: Node): set<nat>
    decreases n, 0
  {
    match n
    case Empty => {}
    case Literal(_) => {}
    case AnyChar => {}
    case OneOf(_) => {}
    case Assert(_) => {}
    case Group(g, x) => (if g.Some? then {g.value} else {}) + LiveGroups(x)
    case Look(_, x) => {}
    case Concat(items) => SeqGroups(items)
    case Alt(branches) => SeqGroups(branches)
    case Repeat(x, _, max, _, _) => if max == Some(0) then {} else LiveGroups(x)
  }

  function SeqGroups(items: seq<Node>): set<nat>
    decreases items, 0
  {
    if items == [] then {} else LiveGroups(items[0]) + SeqGroups(items[1..])
  }

  /** No two groups have the same number. */
  predicate Numbered(n: Node)
    decreases n, 0
  {
    match n
    case Empty => true
    case Literal(_) => true
    case AnyChar => true
    case OneOf(_) => true
    case Assert(_) => true
    case Group(g, x) => (g.Some? ==> g.value !in LiveGroups(x)) && Numbered(x)
    case Look(_, x) => true
    case Concat(items) => NumberedSeq(items)
    case Alt(branches) => NumberedSeq(branches)
    case Repeat(x, _, _, _, _) => Numbered(x)
  }

  predicate NumberedSeq(items: seq<Node>)
    decreases items, 0
  {
    items != [] ==> Numbered(items[0]) && LiveGroups(items[0]) !! SeqGroups(items[1..]) && NumberedSeq(items[1..])
  }

  lemma {:induction false} PlainHasNoGroups(n: Node)
    requires Plain(n)
    ensures LiveGroups(n) == {}
    decreases n, 0
  {
    match n
    case Group(_, x) => PlainHasNoGroups(x);
    case Concat(items) => PlainSeqHasNoGroups(items);
    case Alt(branches) => PlainSeqHasNoGroups(branches);
    case Repeat(x, _, max, _, _) => if max != Some(0) { PlainHasNoGroups(x); }
    case _ =>
  }

  lemma {:induction false} PlainSeqHasNoGroups(items: seq<Node>)
    requires AllPlain(items)
    ensures SeqGroups(items) == {}
    decreases items, 0
  {
    if items != [] {
      PlainHasNoGroups(items[0]);
      assert forall k :: 0 <= k < |items| - 1 ==> items[1..][k] == items[k + 1];
      PlainSeqHasNoGroups(items[1..]);
    }
  }

  lemma {:induction false} SeqGroupsAppend(a: seq<Node>, b: seq<Node>)
    ensures SeqGroups(a + b) == SeqGroups(a) + SeqGroups(b)
    decreases |a|
  {
    if a == [] {
      assert a + b == b;
    } else {
      assert (a + b)[1..] == a[1..] + b;
      SeqGroupsAppend(a[1..], b);
    }
  }

  // ----- captures of a parse

  function Forgotten(groups: set<nat>, c: Caps): (d: Caps)
    ensures |d| == |c|
  {
    seq(|c|, k requires 0 <= k < |c| => if k / 2 in groups then None else c[k])
  }

  /** A parse of `[i, j)` as `n` can turn the captures `c` into `d`. */
  ghost predicate Parses(s: Subject, n: Node, i: nat, j: nat, c: Caps, d: Caps)
    decreases n, 0
  {
    if Plain(n) then Matches(s, n, i, j) && d == c
    else
      match n
      case Group(None, x) => Parses(s, x, i, j, c, d)
      case Group(Some(g), x) => Parses(s, x, i, j, SetSpan(c, g, Some(i), Some(j)), d)
      case Concat(items) => ParsesSeq(s, items, i, j, c, d)
      case Alt(branches) => exists b :: b in branches && Parses(s, b, i, j, c, d)
      case Repeat(x, min, max, _, _) =>
        || (min == 0 && i == j <= |s.text| && d == c)
        || ParsesLast(s, x, min, max, i, j, c, d)
      case _ => Matches(s, n, i, j) && d == c
  }

  ghost predicate ParsesSeq(s: Subject, items: seq<Node>, i: nat, j: nat, c: Caps, d: Caps)
    decreases items, 0
  {
    if items == [] then i == j <= |s.text| && d == c
    else exists m: nat, e: Caps :: Parses(s, items[0], i, m, c, e) && ParsesSeq(s, items[1..], m, j, e, d)
  }

  /** All copies but the last match; the last one sets the captures, which start from nothing. */
  ghost predicate ParsesLast(s: Subject, x: Node, min: nat, max: Option<nat>, i: nat, j: nat, c: Caps, d: Caps)
    decreases x, 1
  {
    exists k: nat, q ::
      && min <= k + 1 && (max.Some? ==> k + 1 <= max.value)
      && Copies(s, x, k, i, q) && Parses(s, x, q, j, Forgotten(LiveGroups(x), c), d)
  }

  lemma JoinLast(s: Subject, x: Node, min: nat, max: Option<nat>, k: nat, i: nat, q: nat, j: nat, c: Caps, d: Caps)
    requires min <= k + 1 && (max.Some? ==> k + 1 <= max.value)
    requires Copies(s, x, k, i, q) && Parses(s, x, q, j, Forgotten(LiveGroups(x), c), d)
    ensures ParsesLast(s, x, min, max, i, j, c, d)
  {
  }

  /** A parse is a match. */
  lemma {:induction false} ParsesMatches(s: Subject, n: Node, i: nat, j: nat, c: Caps, d: Caps)
    requires Parses(s, n, i, j, c, d)
    ensures Matches(s, n, i, j)
    decreases n, 0
  {
    if Captures(n) {
      match n
      case Group(None, x) => ParsesMatches(s, x, i, j, c, d);
      case Group(Some(g), x) => ParsesMatches(s, x, i, j, SetSpan(c, g, Some(i), Some(j)), d);
      case Concat(items) =>
        ParsesSeqMatches(s, items, i, j, c, d);
        MatchesSeqBounds(s, items, i, j);
      case Alt(branches) =>
        var b :| b in branches && Parses(s, b, i, j, c, d);
        ParsesMatches(s, b, i, j, c, d);
      case Repeat(x, min, max, _, _) => ParsesRepeatMatches(s, n, i, j, c, d);
      case _ =>
    }
  }

  lemma {:induction false} ParsesSeqMatches(s: Subject, items: seq<Node>, i: nat, j: nat, c: Caps, d: Caps)
    requires ParsesSeq(s, items, i, j, c, d)
    ensures MatchesSeq(s, items, i, j)
    decreases items, 0
  {
    if items != [] {
      var m: nat, e: Caps :| Parses(s, items[0], i, m, c, e) && ParsesSeq(s, items[1..], m, j, e, d);
      ParsesMatches(s, items[0], i, m, c, e);
      ParsesSeqMatches(s, items[1..], m, j, e, d);
    }
  }

  lemma {:induction false} ParsesRepeatMatches(s: Subject, n: Node, i: nat, j: nat, c: Caps, d: Caps)
    requires n.Repeat? && Captures(n) && Parses(s, n, i, j, c, d)
    ensures Matches(s, n, i, j)
    decreases n.inner, 1
  {
    var x, more := n.inner, More(n.min, n.max);
    if ParsesLast(s, x, n.min, n.max, i, j, c, d) {
      var k: nat, q :|
        && n.min <= k + 1 && (n.max.Some? ==> k + 1 <= n.max.value)
        && Copies(s, x, k, i, q) && Parses(s, x, q, j, Forgotten(LiveGroups(x), c), d);
      ParsesMatches(s, x, q, j, Forgotten(LiveGroups(x), c), d);
      assert Copies(s, x, 0, j, j);
      JoinCopies(s, x, 1, q, j, j);
      AppendCopies(s, x, k, 1, i, q, j);
      CopiesBounds(s, x, k + 1, i, j);
      assert Reps(s, x, n.min, more, i, j);
    } else {
      NoReps(s, x, more, i);
    }
  }

  lemma {:induction false} ParsesAppend(s: Subject, a: seq<Node>, b: seq<Node>, i: nat, m: nat, j: nat, c: Caps, e: Caps, d: Caps)
    requires ParsesSeq(s, a, i, m, c, e) && ParsesSeq(s, b, m, j, e, d)
    ensures ParsesSeq(s, a + b, i, j, c, d)
    decreases |a|
  {
    if a == [] {
      assert a + b == b;
    } else {
      var p: nat, f: Caps :| Parses(s, a[0], i, p, c, f) && ParsesSeq(s, a[1..], p, m, f, e);
      ParsesAppend(s, a[1..], b, p, m, j, f, e, d);
      assert (a + b)[0] == a[0] && (a + b)[1..] == a[1..] + b;
    }
  }

  lemma {:induction false} PlainSeqParses(s: Subject, items: seq<Node>, i: nat, j: nat, c: Caps)
    requires AllPlain(items) && MatchesSeq(s, items, i, j)
    ensures ParsesSeq(s, items, i, j, c, c)
    decreases |items|
  {
    if items != [] {
      var m := SplitSeq(s, items, i, j);
      assert forall k :: 0 <= k < |items| - 1 ==> items[1..][k] == items[k + 1];
      PlainSeqParses(s, items[1..], m, j, c);
      assert Parses(s, items[0], i, m, c, c);
    }
  }

  lemma ParsesOne(s: Subject, x: Node, i: nat, j: nat, c: Caps, d: Caps)
    requires Parses(s, x, i, j, c, d)
    ensures ParsesSeq(s, [x], i, j, c, d)
  {
    ParsesMatches(s, x, i, j, c, d);
    assert [x][1..] == [];
    assert ParsesSeq(s, [x][1..], j, j, d, d);
  }

  // ----- a plan has the groups of its tree

  lemma {:induction false} PlanGroups(srcs: seq<seq<Node>>, p: Plan, n: Node)
    requires PlanOf(srcs, p, n)
    ensures Groups(p) == LiveGroups(n)
    decreases n, 0
  {
    if Plain(n) {
      PlainHasNoGroups(n);
    } else {
      match n
      case Group(None, x) => PlanGroups(srcs, p, x);
      case Group(Some(_), x) => PlanGroups(srcs, p.kind.inner, x);
      case Concat(items) => ElemsGroups(srcs, p.kind.elems, items);
      case Alt(branches) =>
        BranchesGroups(srcs, p.kind.branches, branches);
        assert Groups(p) == GroupsOfPlans(p.kind.branches);
      case Repeat(x, _, _, _, _) => PlanGroups(srcs, p.kind.body, x);
      case _ =>
    }
  }

  ghost function GroupsOfAll(elems: seq<Elem>): set<nat> {
    set e, g | e in elems && g in GroupsOf(e) :: g
  }

  lemma {:induction false} ElemsGroups(srcs: seq<seq<Node>>, elems: seq<Elem>, items: seq<Node>)
    requires ElemsOf(srcs, elems, items)
    ensures GroupsOfAll(elems) == SeqGroups(items)
    decreases items, 0
  {
    if items != [] {
      var c := PartLen(items);
      ElemGroups(srcs, elems[0], items);
      ElemsGroups(srcs, elems[1..], items[c..]);
      SeqGroupsAppend(items[..c], items[c..]);
      assert items[..c] + items[c..] == items;
      assert elems == [elems[0]] + elems[1..];
      assert GroupsOfAll(elems) == GroupsOf(elems[0]) + GroupsOfAll(elems[1..]);
    }
  }

  lemma {:induction false} ElemGroups(srcs: seq<seq<Node>>, e: Elem, items: seq<Node>)
    requires items != [] && ElemOf(srcs, e, items)
    ensures GroupsOf(e) == SeqGroups(items[..PartLen(items)])
    decreases items[0], 1
  {
    var part := items[..PartLen(items)];
    if Captures(items[0]) {
      PlanGroups(srcs, e.plan, items[0]);
      assert part == [items[0]] && part[1..] == [];
    } else {
      PartIsPlain(items);
      PlainSeqHasNoGroups(part);
    }
  }

  lemma {:induction false} PartIsPlain(items: seq<Node>)
    requires items != [] && Plain(items[0])
    ensures AllPlain(items[..PartLen(items)])
    decreases |items|
  {
    var c := PartLen(items);
    if c > 1 {
      PartIsPlain(items[1..]);
      forall k | 0 <= k < c ensures Plain(items[..c][k]) {
        if k > 0 { assert items[..c][k] == items[1..][..c - 1][k - 1]; }
      }
    }
  }

  ghost function GroupsOfPlans(plans: seq<Plan>): set<nat> {
    set b, g | b in plans && g in Groups(b) :: g
  }

  lemma {:induction false} BranchesGroups(srcs: seq<seq<Node>>, plans: seq<Plan>, branches: seq<Node>)
    requires BranchesOf(srcs, plans, branches)
    ensures GroupsOfPlans(plans) == SeqGroups(branches)
    decreases branches, 0
  {
    if branches != [] {
      PlanGroups(srcs, plans[0], branches[0]);
      BranchesGroups(srcs, plans[1..], branches[1..]);
      assert plans == [plans[0]] + plans[1..];
      assert GroupsOfPlans(plans) == Groups(plans[0]) + GroupsOfPlans(plans[1..]);
    }
  }

  lemma {:induction false} GroupsAreKnown(n: Node, groups: nat)
    requires WellFormed(n, groups)
    ensures forall g :: g in LiveGroups(n) ==> g <= groups
    decreases n, 0
  {
    match n
    case Group(_, x) => GroupsAreKnown(x, groups);
    case Concat(items) => SeqGroupsAreKnown(items, groups);
    case Alt(branches) => SeqGroupsAreKnown(branches, groups);
    case Repeat(x, _, max, _, _) => GroupsAreKnown(x, groups);
    case _ =>
  }

  lemma {:induction false} SeqGroupsAreKnown(items: seq<Node>, groups: nat)
    requires forall x | x in items :: WellFormed(x, groups)
    ensures forall g :: g in SeqGroups(items) ==> g <= groups
    decreases items, 0
  {
    if items != [] {
      GroupsAreKnown(items[0], groups);
      SeqGroupsAreKnown(items[1..], groups);
    }
  }

  /** Zapping a plan forgets the groups of its tree. */
  lemma ZapIsForgotten(srcs: seq<seq<Node>>, p: Plan, n: Node, c: Caps)
    requires PlanOf(srcs, p, n) && Roomy(LiveGroups(n), c)
    ensures Zap(p, c) == Forgotten(LiveGroups(n), c)
  {
    PlanGroups(srcs, p, n);
    ZapClears(p, c);
  }

  // ----- captures are nested and ordered

  ghost predicate Unset(groups: set<nat>, c: Caps) {
    forall g :: g in groups ==> 2 * g + 1 < |c| && c[2 * g] == None && c[2 * g + 1] == None
  }

  /**
   The groups of `n` that are set lie in `[i, j)`, a group inside another lies in
   its span, and the groups of successive items follow each other.
   */
  ghost predicate Laid(n: Node, i: nat, j: nat, c: Caps)
    decreases n, 0
  {
    if Plain(n) then true
    else
      match n
      case Group(None, x) => Laid(x, i, j, c)
      case Group(Some(g), x) =>
        || Unset({g} + LiveGroups(x), c)
        || (2 * g + 1 < |c| && c[2 * g].Some? && c[2 * g + 1].Some?
            && i <= c[2 * g].value <= c[2 * g + 1].value <= j && Laid(x, c[2 * g].value, c[2 * g + 1].value, c))
      case Concat(items) => LaidSeq(items, i, j, c)
      case Alt(branches) => LaidAll(branches, i, j, c)
      case Repeat(x, _, _, _, _) => Laid(x, i, j, c)
      case _ => true
  }

  ghost predicate LaidSeq(items: seq<Node>, i: nat, j: nat, c: Caps)
    decreases items, 0
  {
    items != [] ==> exists m :: i <= m <= j && Laid(items[0], i, m, c) && LaidSeq(items[1..], m, j, c)
  }

  ghost predicate LaidAll(branches: seq<Node>, i: nat, j: nat, c: Caps)
    decreases branches, 0
  {
    branches != [] ==> Laid(branches[0], i, j, c) && LaidAll(branches[1..], i, j, c)
  }

  lemma {:induction false} UnsetIsLaid(n: Node, i: nat, j: nat, c: Caps)
    requires Unset(LiveGroups(n), c) && i <= j
    ensures Laid(n, i, j, c)
    decreases n, 0
  {
    match n
    case Group(None, x) => UnsetIsLaid(x, i, j, c);
    case Concat(items) => UnsetSeqIsLaid(items, i, j, c);
    case Alt(branches) => UnsetSeqIsLaid(branches, i, j, c);
    case Repeat(x, _, _, _, _) => if Captures(n) { UnsetIsLaid(x, i, j, c); }
    case _ =>
  }

  lemma {:induction false} UnsetSeqIsLaid(items: seq<Node>, i: nat, j: nat, c: Caps)
    requires Unset(SeqGroups(items), c) && i <= j
    ensures LaidSeq(items, i, j, c) && LaidAll(items, i, j, c)
    decreases items, 0
  {
    if items != [] {
      UnsetIsLaid(items[0], i, j, c);
      UnsetSeqIsLaid(items[1..], j, j, c);
      UnsetSeqIsLaid(items[1..], i, j, c);
    }
  }

  lemma {:induction false} LaidWidens(n: Node, i: nat, q: nat, j: nat, c: Caps)
    requires Laid(n, q, j, c) && i <= q
    ensures Laid(n, i, j, c)
    decreases n, 0
  {
    if Captures(n) {
      match n
      case Group(None, x) => LaidWidens(x, i, q, j, c);
      case Concat(items) =>
        if items != [] {
          assert LaidSeq(items, q, j, c);
          var m :| q <= m <= j && Laid(items[0], q, m, c) && LaidSeq(items[1..], m, j, c);
          LaidWidens(items[0], i, q, m, c);
        }
      case Alt(branches) => LaidAllWidens(branches, i, q, j, c);
      case Repeat(x, _, _, _, _) => LaidWidens(x, i, q, j, c);
      case _ =>
    }
  }

  lemma {:induction false} LaidAllWidens(branches: seq<Node>, i: nat, q: nat, j: nat, c: Caps)
    requires LaidAll(branches, q, j, c) && i <= q
    ensures LaidAll(branches, i, j, c)
    decreases branches, 0
  {
    if branches != [] {
      LaidWidens(branches[0], i, q, j, c);
      LaidAllWidens(branches[1..], i, q, j, c);
    }
  }

  /** `c` and `d` agree on the slots of `groups`. */
  ghost predicate Agree(groups: set<nat>, c: Caps, d: Caps) {
    |c| == |d| && forall k :: 0 <= k < |c| && k / 2 in groups ==> c[k] == d[k]
  }

  lemma {:induction false} LaidFrame(n: Node, i: nat, j: nat, c: Caps, d: Caps)
    requires Laid(n, i, j, c) && Agree(LiveGroups(n), c, d)
    ensures Laid(n, i, j, d)
    decreases n, 0
  {
    if Captures(n) {
      match n
      case Group(None, x) => LaidFrame(x, i, j, c, d);
      case Group(Some(g), x) =>
        if Unset({g} + LiveGroups(x), c) {
          forall h | h in {g} + LiveGroups(x) ensures 2 * h + 1 < |d| && d[2 * h] == None && d[2 * h + 1] == None {
            assert (2 * h) / 2 == h && (2 * h + 1) / 2 == h;
          }
        } else {
          assert (2 * g) / 2 == g && (2 * g + 1) / 2 == g;
          LaidFrame(x, c[2 * g].value, c[2 * g + 1].value, c, d);
        }
      case Concat(items) => LaidSeqFrame(items, i, j, c, d);
      case Alt(branches) => LaidAllFrame(branches, i, j, c, d);
      case Repeat(x, _, _, _, _) => LaidFrame(x, i, j, c, d);
      case _ =>
    }
  }

  lemma {:induction false} LaidSeqFrame(items: seq<Node>, i: nat, j: nat, c: Caps, d: Caps)
    requires LaidSeq(items, i, j, c) && Agree(SeqGroups(items), c, d)
    ensures LaidSeq(items, i, j, d)
    decreases items, 0
  {
    if items != [] {
      var m :| i <= m <= j && Laid(items[0], i, m, c) && LaidSeq(items[1..], m, j, c);
      LaidFrame(items[0], i, m, c, d);
      LaidSeqFrame(items[1..], m, j, c, d);
    }
  }

  lemma {:induction false} LaidAllFrame(branches: seq<Node>, i: nat, j: nat, c: Caps, d: Caps)
    requires LaidAll(branches, i, j, c) && Agree(SeqGroups(branches), c, d)
    ensures LaidAll(branches, i, j, d)
    decreases branches, 0
  {
    if branches != [] {
      LaidFrame(branches[0], i, j, c, d);
      LaidAllFrame(branches[1..], i, j, c, d);
    }
  }

  /** A parse touches the groups of its tree and nothing else. */
  lemma {:induction false} ParsesTouches(s: Subject, n: Node, i: nat, j: nat, c: Caps, d: Caps)
    requires Parses(s, n, i, j, c, d)
    ensures Touches(LiveGroups(n), c, d)
    decreases n, 0
  {
    if Captures(n) {
      match n
      case Group(None, x) => ParsesTouches(s, x, i, j, c, d);
      case Group(Some(g), x) => ParsesTouches(s, x, i, j, SetSpan(c, g, Some(i), Some(j)), d);
      case Concat(items) => ParsesSeqTouches(s, items, i, j, c, d);
      case Alt(branches) =>
        var b :| b in branches && Parses(s, b, i, j, c, d);
        ParsesTouches(s, b, i, j, c, d);
        BranchGroups(branches, b);
      case Repeat(x, min, max, _, _) =>
        if ParsesLast(s, x, min, max, i, j, c, d) {
          var q := LastOf(s, x, min, max, i, j, c, d);
          ParsesTouches(s, x, q, j, Forgotten(LiveGroups(x), c), d);
        }
      case _ =>
    }
  }

  lemma LastOf(s: Subject, x: Node, min: nat, max: Option<nat>, i: nat, j: nat, c: Caps, d: Caps) returns (q: nat)
    requires ParsesLast(s, x, min, max, i, j, c, d)
    ensures i <= q && Parses(s, x, q, j, Forgotten(LiveGroups(x), c), d)
  {
    var k: nat, p :|
      && min <= k + 1 && (max.Some? ==> k + 1 <= max.value)
      && Copies(s, x, k, i, p) && Parses(s, x, p, j, Forgotten(LiveGroups(x), c), d);
    q := p;
    CopiesBounds(s, x, k, i, q);
  }

  lemma {:induction false} ParsesSeqTouches(s: Subject, items: seq<Node>, i: nat, j: nat, c: Caps, d: Caps)
    requires ParsesSeq(s, items, i, j, c, d)
    ensures Touches(SeqGroups(items), c, d)
    decreases items, 0
  {
    if items != [] {
      var m: nat, e: Caps :| Parses(s, items[0], i, m, c, e) && ParsesSeq(s, items[1..], m, j, e, d);
      ParsesTouches(s, items[0], i, m, c, e);
      ParsesSeqTouches(s, items[1..], m, j, e, d);
    }
  }

  lemma {:induction false} BranchGroups(branches: seq<Node>, b: Node)
    requires b in branches
    ensures LiveGroups(b) <= SeqGroups(branches)
    decreases |branches|
  {
    if b != branches[0] { BranchGroups(branches[1..], b); }
  }

  /** The captures of a parse that starts from nothing are nested and ordered. */
  lemma {:induction false} ParsesIsLaid(s: Subject, n: Node, i: nat, j: nat, c: Caps, d: Caps)
    requires Parses(s, n, i, j, c, d) && Numbered(n) && Unset(LiveGroups(n), c)
    ensures Laid(n, i, j, d)
    decreases n, 0
  {
    ParsesMatches(s, n, i, j, c, d);
    if Captures(n) {
      match n
      case Group(None, x) => ParsesIsLaid(s, x, i, j, c, d);
      case Group(Some(g), x) =>
        var e := SetSpan(c, g, Some(i), Some(j));
        forall h | h in LiveGroups(x) ensures 2 * h + 1 < |e| && e[2 * h] == None && e[2 * h + 1] == None {
          assert h in LiveGroups(n) && h != g;
        }
        ParsesIsLaid(s, x, i, j, e, d);
        ParsesTouches(s, x, i, j, e, d);
        assert (2 * g) / 2 == g && (2 * g + 1) / 2 == g && g in LiveGroups(n);
      case Concat(items) => ParsesSeqIsLaid(s, items, i, j, c, d);
      case Alt(branches) =>
        var b :| b in branches && Parses(s, b, i, j, c, d);
        ParsesAllIsLaid(s, branches, b, i, j, c, d);
      case Repeat(x, min, max, _, _) =>
        if ParsesLast(s, x, min, max, i, j, c, d) {
          var q := LastOf(s, x, min, max, i, j, c, d);
          ParsesIsLaid(s, x, q, j, Forgotten(LiveGroups(x), c), d);
          LaidWidens(x, i, q, j, d);
        } else {
          UnsetIsLaid(n, i, j, d);
        }
      case _ =>
    }
  }

  lemma {:induction false} ParsesSeqIsLaid(s: Subject, items: seq<Node>, i: nat, j: nat, c: Caps, d: Caps)
    requires ParsesSeq(s, items, i, j, c, d) && NumberedSeq(items) && Unset(SeqGroups(items), c)
    ensures i <= j && LaidSeq(items, i, j, d)
    decreases items, 0
  {
    if items != [] {
      var m: nat, e: Caps :| Parses(s, items[0], i, m, c, e) && ParsesSeq(s, items[1..], m, j, e, d);
      ParsesMatches(s, items[0], i, m, c, e);
      ParsesIsLaid(s, items[0], i, m, c, e);
      ParsesTouches(s, items[0], i, m, c, e);
      forall h | h in SeqGroups(items[1..]) ensures 2 * h + 1 < |e| && e[2 * h] == None && e[2 * h + 1] == None {
        assert h in SeqGroups(items) && h !in LiveGroups(items[0]);
        assert (2 * h) / 2 == h && (2 * h + 1) / 2 == h;
      }
      ParsesSeqIsLaid(s, items[1..], m, j, e, d);
      ParsesSeqTouches(s, items[1..], m, j, e, d);
      LaidFrame(items[0], i, m, e, d);
    }
  }

  lemma {:induction false} ParsesAllIsLaid(s: Subject, branches: seq<Node>, b: Node, i: nat, j: nat, c: Caps, d: Caps)
    requires b in branches && Parses(s, b, i, j, c, d) && NumberedSeq(branches) && Unset(SeqGroups(branches), c)
    ensures LaidAll(branches, i, j, d)
    decreases branches, 0
  {
    ParsesMatches(s, b, i, j, c, d);
    ParsesTouches(s, b, i, j, c, d);
    if b == branches[0] {
      ParsesIsLaid(s, b, i, j, c, d);
      StillUnset(SeqGroups(branches[1..]), LiveGroups(b), c, d);
      UnsetSeqIsLaid(branches[1..], i, j, d);
    } else {
      ParsesAllIsLaid(s, branches[1..], b, i, j, c, d);
      BranchGroups(branches[1..], b);
      StillUnset(LiveGroups(branches[0]), LiveGroups(b), c, d);
      UnsetIsLaid(branches[0], i, j, d);
    }
  }

  lemma StillUnset(groups: set<nat>, touched: set<nat>, c: Caps, d: Caps)
    requires Unset(groups, c) && groups !! touched && Touches(touched, c, d)
    ensures Unset(groups, d)
  {
    forall h | h in groups ensures 2 * h + 1 < |d| && d[2 * h] == None && d[2 * h + 1] == None {
      assert (2 * h) / 2 == h && (2 * h + 1) / 2 == h;
    }
  }
}
