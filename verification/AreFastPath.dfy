/**
 Which patterns may be left to a leftmost-first matcher.

 Such a matcher takes, at the leftmost start, the first match in priority order.
 `Priority` lists the matches of a tree from a position in that order.  For every
 tree that is not `Risky` each match the list has not shown before is shorter
 than all before it, so the first is the longest: that is a crossing argument,
 by which two parses whose spans cross can trade their tails.
 */
module AreFastPath {
  import opened Wrappers
  import opened AreSyntax
  import opened AreDissection
  import opened AreCompleteness
  import opened AreExec

  /** Whether the first match in priority order can differ from the one an ARE prescribes. */
  predicate Risky(n: Node)
    decreases n
  {
    match n
    case Alt(_) => true
    case Look(_, _) => true
    case Repeat(x, min, max, greedy, _) => if max == Some(min) then Risky(x) else !greedy || !SingleChar(x)
    case Group(_, x) => Risky(x)
    case Concat(items) => exists k | 0 <= k < |items| :: Risky(items[k])
    case _ => false
  }

  // ----- matches in priority order

  ghost function Bind(from: seq<nat>, then_: nat -> seq<nat>): seq<nat> {
    if from == [] then [] else Bind(from[..|from| - 1], then_) + then_(from[|from| - 1])
  }

  ghost function Here(s: Subject, yes: bool, i: nat): seq<nat> {
    if yes && i <= |s.text| then [i] else []
  }

  /** The ends of the matches of a tree from `i`, most preferred first. */
  ghost function Priority(s: Subject, n: Node, i: nat): seq<nat>
    requires !Risky(n)
    decreases n, 0, 0
  {
    match n
    case Empty => Here(s, true, i)
    case Literal(_) => Here(s, i < |s.text| && Accepts(s, n, s.text[i]), i + 1)
    case AnyChar => Here(s, i < |s.text| && Accepts(s, n, s.text[i]), i + 1)
    case OneOf(_) => Here(s, i < |s.text| && Accepts(s, n, s.text[i]), i + 1)
    case Assert(a) => Here(s, i <= |s.text| && Holds(s, a, i), i)
    case Group(_, x) => Priority(s, x, i)
    case Concat(items) => PrioritySeq(s, items, i)
    case Repeat(x, min, max, _, _) =>
      if max == Some(min) then PriorityCopies(s, x, min, i)
      else Bind(PriorityCopies(s, x, min, i), AfterStar(s, x, More(min, max)))
  }

  ghost function PrioritySeq(s: Subject, items: seq<Node>, i: nat): seq<nat>
    requires forall k | 0 <= k < |items| :: !Risky(items[k])
    decreases items, 0, 0
  {
    if items == [] then Here(s, true, i)
    else Bind(Priority(s, items[0], i), AfterSeq(s, items[1..]))
  }

  ghost function AfterSeq(s: Subject, items: seq<Node>): nat -> seq<nat>
    requires forall k | 0 <= k < |items| :: !Risky(items[k])
    decreases items, 1, 0
  {
    (p: nat) => PrioritySeq(s, items, p)
  }

  ghost function PriorityCopies(s: Subject, x: Node, k: nat, i: nat): seq<nat>
    requires !Risky(x)
    decreases x, 1, 2 * k
  {
    if k == 0 then Here(s, true, i) else Bind(Priority(s, x, i), AfterCopies(s, x, k - 1))
  }

  ghost function AfterCopies(s: Subject, x: Node, k: nat): nat -> seq<nat>
    requires !Risky(x)
    decreases x, 1, 2 * k + 1
  {
    (p: nat) => PriorityCopies(s, x, k, p)
  }

  /** One more character first, then none. */
  ghost function PriorityStar(s: Subject, x: Node, more: Option<nat>, i: nat): seq<nat>
    requires SingleChar(x)
    decreases |s.text| - i
  {
    if i < |s.text| && Accepts(s, x, s.text[i]) && more != Some(0)
    then PriorityStar(s, x, Fewer(more), i + 1) + [i]
    else Here(s, true, i)
  }

  ghost function AfterStar(s: Subject, x: Node, more: Option<nat>): nat -> seq<nat>
    requires SingleChar(x)
  {
    (p: nat) => PriorityStar(s, x, more, p)
  }

  // ----- the list has the matches of the tree

  lemma {:induction false} InBind(from: seq<nat>, then_: nat -> seq<nat>, e: nat)
    ensures e in Bind(from, then_) <==> exists p :: p in from && e in then_(p)
    decreases |from|
  {
    if from != [] {
      var front, p := from[..|from| - 1], from[|from| - 1];
      InBind(front, then_, e);
      assert from == front + [p];
      assert forall q :: q in from <==> q in front || q == p;
    }
  }

  lemma {:induction false} PriorityIsMatches(s: Subject, n: Node, i: nat, e: nat)
    requires !Risky(n)
    ensures e in Priority(s, n, i) <==> Matches(s, n, i, e)
    decreases n, 0, 0
  {
    match n
    case Empty =>
    case Literal(_) =>
    case AnyChar =>
    case OneOf(_) =>
    case Assert(_) =>
    case Group(_, x) => PriorityIsMatches(s, x, i, e);
    case Concat(items) =>
      PrioritySeqIsMatches(s, items, i, e);
      if MatchesSeq(s, items, i, e) { MatchesSeqBounds(s, items, i, e); }
    case Repeat(x, min, max, _, _) =>
      if max == Some(min) {
        PriorityCopiesIsCopies(s, x, min, i, e);
        RepsExactly(s, x, min, i, e);
        assert Matches(s, n, i, e) <==> i <= e <= |s.text| && Reps(s, x, min, Some(0), i, e);
        if Copies(s, x, min, i, e) { CopiesBounds(s, x, min, i, e); }
      } else {
        PriorityRepeat(s, n, i, e);
      }
  }

  lemma RepsExactly(s: Subject, x: Node, k: nat, i: nat, e: nat)
    ensures Reps(s, x, k, Some(0), i, e) <==> Copies(s, x, k, i, e)
  {
    if Reps(s, x, k, Some(0), i, e) {
      var c := CountOf(s, x, k, Some(0), i, e);
    }
  }

  lemma {:induction false} PrioritySeqIsMatches(s: Subject, items: seq<Node>, i: nat, e: nat)
    requires forall k | 0 <= k < |items| :: !Risky(items[k])
    ensures e in PrioritySeq(s, items, i) <==> MatchesSeq(s, items, i, e)
    decreases items, 0, 0
  {
    if items != [] {
      var rest := items[1..];
      forall p: nat ensures p in Priority(s, items[0], i) <==> Matches(s, items[0], i, p) {
        PriorityIsMatches(s, items[0], i, p);
      }
      forall p: nat ensures e in AfterSeq(s, rest)(p) <==> MatchesSeq(s, rest, p, e) {
        PrioritySeqIsMatches(s, rest, p, e);
      }
      InBind(Priority(s, items[0], i), AfterSeq(s, rest), e);
    }
  }

  lemma {:induction false} PriorityCopiesIsCopies(s: Subject, x: Node, k: nat, i: nat, e: nat)
    requires !Risky(x)
    ensures e in PriorityCopies(s, x, k, i) <==> Copies(s, x, k, i, e)
    decreases x, 1, k
  {
    if k > 0 {
      forall p: nat ensures p in Priority(s, x, i) <==> Matches(s, x, i, p) {
        PriorityIsMatches(s, x, i, p);
      }
      var rest := k - 1;
      forall p: nat ensures e in AfterCopies(s, x, rest)(p) <==> Copies(s, x, rest, p, e) {
        PriorityCopiesIsCopies(s, x, rest, p, e);
      }
      InBind(Priority(s, x, i), AfterCopies(s, x, k - 1), e);
    }
  }

  /** The characters of `[i, e)` are all accepted. */
  ghost predicate Run(s: Subject, x: Node, i: nat, e: nat)
    requires SingleChar(x)
  {
    i <= e <= |s.text| && forall q :: i <= q < e ==> Accepts(s, x, s.text[q])
  }

  lemma {:induction false} CopiesIsRun(s: Subject, x: Node, k: nat, i: nat, e: nat)
    requires SingleChar(x)
    ensures Copies(s, x, k, i, e) <==> e == i + k && Run(s, x, i, e)
    decreases k
  {
    if k > 0 {
      CopiesIsRun(s, x, k - 1, i + 1, e);
      if Copies(s, x, k, i, e) {
        var m := SplitCopies(s, x, k, i, e);
        assert m == i + 1;
      }
      if e == i + k && Run(s, x, i, e) {
        JoinCopies(s, x, k, i, i + 1, e);
      }
    }
  }

  /** A repetition of a single character is a run of accepted characters. */
  lemma RepsIsRun(s: Subject, x: Node, min: nat, more: Option<nat>, i: nat, e: nat)
    requires SingleChar(x)
    ensures Reps(s, x, min, more, i, e) <==> Run(s, x, i, e) && min <= e - i && (more.Some? ==> e - i <= min + more.value)
  {
    if Reps(s, x, min, more, i, e) {
      var k := CountOf(s, x, min, more, i, e);
      CopiesIsRun(s, x, k, i, e);
    }
    if Run(s, x, i, e) {
      CopiesIsRun(s, x, e - i, i, e);
    }
  }

  lemma {:induction false} InStar(s: Subject, x: Node, more: Option<nat>, i: nat, e: nat)
    requires SingleChar(x)
    ensures e in PriorityStar(s, x, more, i) <==> Run(s, x, i, e) && (more.Some? ==> e - i <= more.value)
    decreases |s.text| - i
  {
    if i < |s.text| && Accepts(s, x, s.text[i]) && more != Some(0) {
      InStar(s, x, Fewer(more), i + 1, e);
    }
  }

  lemma PriorityRepeat(s: Subject, n: Node, i: nat, e: nat)
    requires n.Repeat? && !Risky(n) && n.max != Some(n.min)
    ensures e in Priority(s, n, i) <==> Matches(s, n, i, e)
    decreases n.inner, 2, 0
  {
    var x, min, more := n.inner, n.min, More(n.min, n.max);
    var from := PriorityCopies(s, x, min, i);
    forall p: nat ensures p in from <==> p == i + min && Run(s, x, i, p) {
      PriorityCopiesIsCopies(s, x, min, i, p);
      CopiesIsRun(s, x, min, i, p);
    }
    forall p: nat ensures e in AfterStar(s, x, more)(p) <==> Run(s, x, p, e) && (more.Some? ==> e - p <= more.value) {
      InStar(s, x, more, p, e);
    }
    InBind(from, AfterStar(s, x, more), e);
    RepsIsRun(s, x, min, more, i, e);
    if Matches(s, n, i, e) {
      assert i + min in from;
    }
  }

  // ----- crossing

  /** Two parses whose spans cross can trade tails. */
  lemma {:induction false} Crossing(s: Subject, n: Node, p: nat, e: nat, q: nat, f: nat)
    requires !Risky(n) && Matches(s, n, p, e) && Matches(s, n, q, f) && q <= p && e <= f
    ensures Matches(s, n, p, f)
    decreases n, 0, 0
  {
    match n
    case Empty =>
    case Literal(_) =>
    case AnyChar =>
    case OneOf(_) =>
    case Assert(_) =>
    case Group(_, x) => Crossing(s, x, p, e, q, f);
    case Concat(items) =>
      CrossingSeq(s, items, p, e, q, f);
      MatchesSeqBounds(s, items, p, f);
    case Repeat(x, min, max, _, _) =>
      if max == Some(min) {
        RepsExactly(s, x, min, p, e);
        RepsExactly(s, x, min, q, f);
        RepsExactly(s, x, min, p, f);
        CrossingCopies(s, x, min, p, e, q, f);
        CopiesBounds(s, x, min, p, f);
        assert Reps(s, x, min, More(min, max), p, f);
      } else {
        var more := More(min, max);
        RepsIsRun(s, x, min, more, p, e);
        RepsIsRun(s, x, min, more, q, f);
        RepsIsRun(s, x, min, more, p, f);
        assert Reps(s, x, min, more, p, f);
      }
  }

  lemma {:induction false} CrossingSeq(s: Subject, items: seq<Node>, p: nat, e: nat, q: nat, f: nat)
    requires forall k | 0 <= k < |items| :: !Risky(items[k])
    requires MatchesSeq(s, items, p, e) && MatchesSeq(s, items, q, f) && q <= p && e <= f
    ensures MatchesSeq(s, items, p, f)
    decreases items, 0, 0
  {
    if items != [] {
      var a := SplitSeq(s, items, p, e);
      var b := SplitSeq(s, items, q, f);
      if a <= b {
        Crossing(s, items[0], p, a, q, b);
        JoinSeq(s, items, p, b, f);
      } else {
        CrossingSeq(s, items[1..], a, e, b, f);
        JoinSeq(s, items, p, a, f);
      }
    }
  }

  lemma {:induction false} CrossingCopies(s: Subject, x: Node, k: nat, p: nat, e: nat, q: nat, f: nat)
    requires !Risky(x) && Copies(s, x, k, p, e) && Copies(s, x, k, q, f) && q <= p && e <= f
    ensures Copies(s, x, k, p, f)
    decreases x, 1, k
  {
    if k > 0 {
      var a := SplitCopies(s, x, k, p, e);
      var b := SplitCopies(s, x, k, q, f);
      if a <= b {
        Crossing(s, x, p, a, q, b);
        JoinCopies(s, x, k, p, b, f);
      } else {
        CrossingCopies(s, x, k - 1, a, e, b, f);
        JoinCopies(s, x, k, p, a, f);
      }
    }
  }

  // ----- new matches are ever shorter

  /** Every element that was not in the list before is less than all before it. */
  ghost predicate Falls(l: seq<nat>) {
    forall k :: 0 <= k < |l| ==> l[k] in l[..k] || forall a :: 0 <= a < k ==> l[k] < l[a]
  }

  ghost predicate BelowOrIn(l: seq<nat>, e: nat) {
    e in l || forall a :: 0 <= a < |l| ==> e < l[a]
  }

  lemma FallsAppend(a: seq<nat>, b: seq<nat>)
    requires Falls(a) && Falls(b) && forall e :: e in b ==> BelowOrIn(a, e)
    ensures Falls(a + b)
  {
    var l := a + b;
    forall k | 0 <= k < |l| ensures l[k] in l[..k] || forall c :: 0 <= c < k ==> l[k] < l[c] {
      if k < |a| {
        assert l[..k] == a[..k];
      } else {
        assert l[..k] == a + b[..k - |a|];
        assert l[k] == b[k - |a|] && BelowOrIn(a, l[k]);
      }
    }
  }

  /** Spans of a continuation that cross can trade tails. */
  ghost predicate Crosses(then_: nat -> seq<nat>) {
    forall p, e, q, f :: e in then_(p) && f in then_(q) && q <= p && e <= f ==> f in then_(p)
  }

  lemma {:induction false} BindFalls(from: seq<nat>, then_: nat -> seq<nat>)
    requires Falls(from) && Crosses(then_) && forall p :: Falls(then_(p))
    ensures Falls(Bind(from, then_))
    decreases |from|
  {
    if from != [] {
      var last := |from| - 1;
      var front, q := from[..last], from[last];
      forall k | 0 <= k < |front| ensures front[k] in front[..k] || forall a :: 0 <= a < k ==> front[k] < front[a] {
        assert front[..k] == from[..k] && front[k] == from[k];
      }
      BindFalls(front, then_);
      var before := Bind(front, then_);
      forall f | f in then_(q) ensures BelowOrIn(before, f) {
        InBind(front, then_, f);
        forall a | 0 <= a < |before| && f !in before ensures f < before[a] {
          InBind(front, then_, before[a]);
          var p :| p in front && before[a] in then_(p);
          var c :| 0 <= c < last && from[c] == p;
          assert q in from[..last] || q < from[c];
        }
      }
      FallsAppend(before, then_(q));
    }
  }

  lemma {:induction false} PriorityFalls(s: Subject, n: Node, i: nat)
    requires !Risky(n)
    ensures Falls(Priority(s, n, i))
    decreases n, 0, 0
  {
    match n
    case Empty =>
    case Literal(_) =>
    case AnyChar =>
    case OneOf(_) =>
    case Assert(_) =>
    case Group(_, x) => PriorityFalls(s, x, i);
    case Concat(items) => PrioritySeqFalls(s, items, i);
    case Repeat(x, min, max, _, _) =>
      PriorityCopiesFalls(s, x, min, i);
      if max != Some(min) { StarFalls(s, x, min, More(min, max), i); }
  }

  lemma {:induction false} PrioritySeqFalls(s: Subject, items: seq<Node>, i: nat)
    requires forall k | 0 <= k < |items| :: !Risky(items[k])
    ensures Falls(PrioritySeq(s, items, i))
    decreases items, 0, 0
  {
    if items != [] {
      var rest := items[1..];
      PriorityFalls(s, items[0], i);
      var then_ := AfterSeq(s, rest);
      forall p ensures Falls(then_(p)) {
        PrioritySeqFalls(s, rest, p);
      }
      forall p, e, q, f | e in then_(p) && f in then_(q) && q <= p && e <= f ensures f in then_(p) {
        PrioritySeqIsMatches(s, rest, p, e);
        PrioritySeqIsMatches(s, rest, q, f);
        CrossingSeq(s, rest, p, e, q, f);
        PrioritySeqIsMatches(s, rest, p, f);
      }
      BindFalls(Priority(s, items[0], i), then_);
    }
  }

  lemma {:induction false} PriorityCopiesFalls(s: Subject, x: Node, k: nat, i: nat)
    requires !Risky(x)
    ensures Falls(PriorityCopies(s, x, k, i))
    decreases x, 1, k
  {
    if k > 0 {
      hide Priority, Falls, Risky;
      PriorityFalls(s, x, i);
      var then_ := AfterCopies(s, x, k - 1);
      forall p ensures Falls(then_(p)) {
        PriorityCopiesFalls(s, x, k - 1, p);
      }
      CopiesCross(s, x, k - 1);
      BindFalls(Priority(s, x, i), then_);
    }
  }

  lemma CopiesCross(s: Subject, x: Node, k: nat)
    requires !Risky(x)
    ensures Crosses(AfterCopies(s, x, k))
  {
    hide Copies, PriorityCopies, Risky;
    var then_ := AfterCopies(s, x, k);
    forall p, e, q, f | e in then_(p) && f in then_(q) && q <= p && e <= f ensures f in then_(p) {
      PriorityCopiesIsCopies(s, x, k, p, e);
      PriorityCopiesIsCopies(s, x, k, q, f);
      CrossingCopies(s, x, k, p, e, q, f);
      PriorityCopiesIsCopies(s, x, k, p, f);
    }
  }

  lemma StarFalls(s: Subject, x: Node, min: nat, more: Option<nat>, i: nat)
    requires SingleChar(x) && Falls(PriorityCopies(s, x, min, i))
    ensures Falls(Bind(PriorityCopies(s, x, min, i), AfterStar(s, x, more)))
  {
    var then_ := AfterStar(s, x, more);
    forall p ensures Falls(then_(p)) {
      OneStarFalls(s, x, more, p);
    }
    forall p, e, q, f | e in then_(p) && f in then_(q) && q <= p && e <= f ensures f in then_(p) {
      InStar(s, x, more, p, e);
      InStar(s, x, more, q, f);
      InStar(s, x, more, p, f);
    }
    BindFalls(PriorityCopies(s, x, min, i), then_);
  }

  lemma {:induction false} OneStarFalls(s: Subject, x: Node, more: Option<nat>, i: nat)
    requires SingleChar(x)
    ensures Falls(PriorityStar(s, x, more, i))
    decreases |s.text| - i
  {
    if i < |s.text| && Accepts(s, x, s.text[i]) && more != Some(0) {
      var longer := PriorityStar(s, x, Fewer(more), i + 1);
      OneStarFalls(s, x, Fewer(more), i + 1);
      forall a | 0 <= a < |longer| ensures i < longer[a] {
        InStar(s, x, Fewer(more), i + 1, longer[a]);
      }
      FallsAppend(longer, [i]);
    }
  }

  // ----- the first match

  /** The first match in priority order is the longest. */
  lemma FirstIsLongest(s: Subject, n: Node, i: nat)
    requires !Risky(n) && Priority(s, n, i) != []
    ensures Matches(s, n, i, Priority(s, n, i)[0])
    ensures forall j: nat :: Matches(s, n, i, j) ==> j <= Priority(s, n, i)[0]
  {
    var l := Priority(s, n, i);
    PriorityIsMatches(s, n, i, l[0]);
    PriorityFalls(s, n, i);
    FirstIsGreatest(l);
    forall j | Matches(s, n, i, j) ensures j <= l[0] {
      PriorityIsMatches(s, n, i, j);
    }
  }

  lemma {:induction false} FirstIsGreatest(l: seq<nat>)
    requires Falls(l) && l != []
    ensures forall e :: e in l ==> e <= l[0]
    decreases |l|
  {
    var last := |l| - 1;
    if last > 0 {
      var front := l[..last];
      forall k | 0 <= k < |front| ensures front[k] in front[..k] || forall a :: 0 <= a < k ==> front[k] < front[a] {
        assert front[..k] == l[..k] && front[k] == l[k];
      }
      FirstIsGreatest(front);
      assert l == front + [l[last]];
      assert l[last] in front || l[last] < l[0];
    }
  }

  /** The leftmost start from `i` on with a match, and the first match there. */
  ghost function LeftmostFirst(s: Subject, n: Node, i: nat): Option<(nat, nat)>
    requires !Risky(n)
    decreases |s.text| + 1 - i
  {
    if i > |s.text| then None
    else if Priority(s, n, i) != [] then Some((i, Priority(s, n, i)[0]))
    else LeftmostFirst(s, n, i + 1)
  }

  lemma {:induction false} LeftmostIsFirst(s: Subject, n: Node, i: nat)
    requires !Risky(n)
    ensures
      var m := LeftmostFirst(s, n, i);
      if m.None? then forall k, j :: i <= k ==> !Matches(s, n, k, j)
      else (
        && i <= m.value.0 && (forall k, j :: i <= k < m.value.0 ==> !Matches(s, n, k, j))
        && Priority(s, n, m.value.0) != [] && m.value.1 == Priority(s, n, m.value.0)[0])
    decreases |s.text| + 1 - i
  {
    if i <= |s.text| && Priority(s, n, i) == [] {
      forall j ensures !Matches(s, n, i, j) { PriorityIsMatches(s, n, i, j); }
      LeftmostIsFirst(s, n, i + 1);
    } else if i > |s.text| {
      forall k, j | i <= k ensures !Matches(s, n, k, j) { PastTheEnd(s, n, k, j); }
    }
  }

  lemma PastTheEnd(s: Subject, n: Node, k: nat, j: nat)
    requires k > |s.text|
    ensures !Matches(s, n, k, j)
  {
  }

  /**
   When a tree is not risky a leftmost-first matcher finds a match whenever there
   is one, and what it finds is what an ARE prescribes exactly when the tree does
   not prefer its shortest match or has no other match from that start.
   */
  lemma FastPathAgrees(s: Subject, n: Node)
    requires !Risky(n)
    ensures LeftmostFirst(s, n, 0).None? <==> forall i, j :: !Matches(s, n, i, j)
    ensures LeftmostFirst(s, n, 0).Some? ==>
      var (start, end) := LeftmostFirst(s, n, 0).value;
      Prescribed(s, n, start, end) <==> PrefOf(n) != Shortest || OnlyEnd(s, n, start, end)
  {
    LeftmostIsFirst(s, n, 0);
    if LeftmostFirst(s, n, 0).Some? {
      var (start, end) := LeftmostFirst(s, n, 0).value;
      FirstIsLongest(s, n, start);
      AgreesAt(s, n, start, end);
    }
  }

  ghost predicate OnlyEnd(s: Subject, n: Node, start: nat, end: nat) {
    forall j: nat :: Matches(s, n, start, j) ==> j == end
  }

  lemma AgreesAt(s: Subject, n: Node, start: nat, end: nat)
    requires Matches(s, n, start, end) && forall j: nat :: Matches(s, n, start, j) ==> j <= end
    requires forall i: nat, j :: i < start ==> !Matches(s, n, i, j)
    ensures Prescribed(s, n, start, end) <==> PrefOf(n) != Shortest || OnlyEnd(s, n, start, end)
  {
    hide Matches, PrefOf;
    if Prescribed(s, n, start, end) && PrefOf(n) == Shortest {
      forall j: nat | Matches(s, n, start, j) ensures j == end {
        assert Prefers(true, end, j);
      }
    }
    if PrefOf(n) != Shortest || OnlyEnd(s, n, start, end) {
      assert Prescribed(s, n, start, end);
    }
  }

  /** No exact count `{m,m}?` that is not written `{m}?`. */
  predicate NoReluctantCount(n: Node)
    decreases n
  {
    match n
    case Group(_, x) => NoReluctantCount(x)
    case Look(_, x) => NoReluctantCount(x)
    case Concat(items) => forall k | 0 <= k < |items| :: NoReluctantCount(items[k])
    case Alt(branches) => forall k | 0 <= k < |branches| :: NoReluctantCount(branches[k])
    case Repeat(x, min, max, greedy, bare) => NoReluctantCount(x) && (max == Some(min) && !greedy && max != Some(0) ==> bare)
    case _ => true
  }

  /** Without such a count a tree that is not risky never prefers its shortest match. */
  lemma {:induction false} SafeIsNotReluctant(n: Node)
    requires !Risky(n) && NoReluctantCount(n)
    ensures PrefOf(n) != Shortest
    decreases n, 0
  {
    match n
    case Group(_, x) => SafeIsNotReluctant(x);
    case Concat(items) => SafeSeqIsNotReluctant(items);
    case Repeat(x, min, max, _, _) => if max == Some(min) || SingleChar(x) { SafeIsNotReluctant(x); }
    case _ =>
  }

  lemma {:induction false} SafeSeqIsNotReluctant(items: seq<Node>)
    requires forall k | 0 <= k < |items| :: !Risky(items[k]) && NoReluctantCount(items[k])
    ensures PrefOfSeq(items) != Shortest
    decreases items, 0
  {
    if items != [] {
      SafeIsNotReluctant(items[0]);
      assert forall k :: 0 <= k < |items| - 1 ==> items[1..][k] == items[k + 1];
      SafeSeqIsNotReluctant(items[1..]);
    }
  }

  /** Nor is any span in the way of its own dissection. */
  lemma {:induction false} SafeIsFree(n: Node, len: nat)
    requires !Risky(n) && NoReluctantCount(n)
    ensures Free(n, len)
    decreases n, 0
  {
    match n
    case Group(_, x) => SafeIsFree(x, len);
    case Concat(items) => SafeSeqIsFree(items, len);
    case Repeat(x, min, max, _, _) =>
      if max == Some(min) {
        SafeIsFree(x, len);
        SafeIsNotReluctant(x);
      }
    case _ =>
  }

  lemma {:induction false} SafeSeqIsFree(items: seq<Node>, len: nat)
    requires forall k | 0 <= k < |items| :: !Risky(items[k]) && NoReluctantCount(items[k])
    ensures FreeAll(items, len)
    decreases items, 0
  {
    if items != [] {
      SafeIsFree(items[0], len);
      assert forall k :: 0 <= k < |items| - 1 ==> items[1..][k] == items[k + 1];
      SafeSeqIsFree(items[1..], len);
    }
  }

  /** For such a pattern the engine answers what a leftmost-first matcher finds: the same span, or none for none. */
  lemma EngineAgrees(s: Subject, n: Node, groups: nat, span: Option<(nat, nat)>)
    requires WellFormed(n, groups) && !Risky(n) && NoReluctantCount(n) && Answer(s, n, span)
    ensures span == LeftmostFirst(s, n, 0)
  {
    SafeIsFree(n, |s.text|);
    FreeIsPrescribed(s, n, groups, span);
    hide Matches, LeftmostFirst, PrefOf, Priority, Free;
    SafeIsNotReluctant(n);
    LeftmostIsFirst(s, n, 0);
    var m := LeftmostFirst(s, n, 0);
    if m.Some? { FirstIsLongest(s, n, m.value.0); }
    if span.Some? {
      assert m.Some? && m.value.0 == span.value.0;
      assert Prefers(false, span.value.1, m.value.1);
    }
  }

  // ----- the exception

  /** `a{2,2}?b*` */
  function Counted(): Node {
    Concat([Repeat(Literal(97), 2, Some(2), false, false), Repeat(Literal(98), 0, None, true, false)])
  }

  function Aab(): Subject {
    Subject([97, 97, 98], false, false, false, {})
  }

  lemma CountedMatches(j: nat)
    requires 2 <= j <= 3
    ensures Matches(Aab(), Counted(), 0, j)
  {
    var s, a, b := Aab(), Counted().items[0], Counted().items[1];
    RepsIsRun(s, Literal(97), 2, Some(0), 0, 2);
    assert Reps(s, Literal(97), 2, More(2, Some(2)), 0, 2);
    assert Matches(s, a, 0, 2);
    RepsIsRun(s, Literal(98), 0, None, 2, j);
    assert Matches(s, b, 2, j);
    assert [a, b][1..] == [b];
    MatchesSingleton(s, b, 2, j);
    JoinSeq(s, [a, b], 0, 2, j);
  }

  lemma CountedIsSafe()
    ensures !Risky(Counted()) && PrefOf(Counted()) == Shortest
  {
    var a := Counted().items[0];
    assert PrefOf(a) == Shortest && !Risky(a);
  }

  /** On `aab` it prefers the match `aa`, but a leftmost-first matcher finds `aab`. */
  lemma ReluctantCountDisagrees()
    ensures !Risky(Counted()) && PrefOf(Counted()) == Shortest
    ensures
      var m := LeftmostFirst(Aab(), Counted(), 0);
      m.Some? && !Prescribed(Aab(), Counted(), m.value.0, m.value.1)
  {
    CountedIsSafe();
    CountedMatches(2);
    CountedMatches(3);
    TwoEndsDisagree(Aab(), Counted(), 2, 3);
  }

  lemma TwoEndsDisagree(s: Subject, n: Node, j: nat, k: nat)
    requires !Risky(n) && PrefOf(n) == Shortest && j != k
    requires Matches(s, n, 0, j) && Matches(s, n, 0, k)
    ensures
      var m := LeftmostFirst(s, n, 0);
      m.Some? && !Prescribed(s, n, m.value.0, m.value.1)
  {
    hide Matches, Priority, LeftmostFirst, Risky, PrefOf, Prescribed;
    FastPathAgrees(s, n);
    LeftmostIsFirst(s, n, 0);
    var m := LeftmostFirst(s, n, 0);
    assert m.value.0 == 0;
    assert j != m.value.1 || k != m.value.1;
  }
}
