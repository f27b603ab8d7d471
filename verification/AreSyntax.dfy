/**
 The pattern tree of the advanced-regular-expression engine, what a tree means,
 and the syntactic analyses the engine makes of it.

 A tree denotes a relation between positions of a subject: `Matches(s, n, i, j)`
 says that `n` can match exactly the characters `[i, j)`.  The relation says
 nothing of programs, priorities or marks; everything the engine computes is
 proved against it.
 */
module AreSyntax {
  import opened Wrappers

  /** A set of characters: inclusive ranges of code points, optionally negated. */
  datatype CharSet = CharSet(ranges: seq<(nat, nat)>, negated: bool)

  /** Zero-width conditions. */
  datatype Assertion =
    | LineStart
    | LineEnd
    | TextStart
    | TextEnd
    | WordBoundary
    | NotWordBoundary
    | WordStart
    | WordEnd

  datatype Node =
    | Empty
    | Literal(c: nat)
    | AnyChar
    | OneOf(set_: CharSet)
    | Assert(a: Assertion)
    | Group(number: Option<nat>, inner: Node)
    | Look(negated: bool, inner: Node)
    | Concat(items: seq<Node>)
    | Alt(branches: seq<Node>)
    | Repeat(inner: Node, min: nat, max: Option<nat>, greedy: bool, bare: bool)

  /** The length a tree prefers its match to have. */
  datatype Pref = Longest | Shortest | NoPref

  /**
   A subject, and the flags of a search.  `word` holds the code points that
   count as word characters.
   */
  datatype Subject = Subject(
    text: seq<nat>,
    notbol: bool,
    multiline: bool,
    dotall: bool,
    word: set<nat>)

  const NEWLINE: nat := 10

  // ----- meaning of the leaves

  ghost predicate InSet(cs: CharSet, c: nat) {
    (exists r :: r in cs.ranges && r.0 <= c <= r.1) != cs.negated
  }

  /** The form `AreCharSet.New` gives: ranges in order, with a gap between any two. */
  ghost predicate Normal(cs: CharSet) {
    && (forall k | 0 <= k < |cs.ranges| :: cs.ranges[k].0 <= cs.ranges[k].1)
    && (forall j, k | 0 <= j < k < |cs.ranges| :: cs.ranges[j].1 + 1 < cs.ranges[k].0)
  }

  predicate Holds(s: Subject, a: Assertion, pos: nat)
    requires pos <= |s.text|
  {
    var n := |s.text|;
    var before := pos > 0 && s.text[pos - 1] in s.word;
    var after := pos < n && s.text[pos] in s.word;
    match a
    case LineStart => if pos == 0 then !s.notbol else s.multiline && s.text[pos - 1] == NEWLINE
    case LineEnd => pos == n || (s.multiline && s.text[pos] == NEWLINE)
    case TextStart => pos == 0
    case TextEnd => pos == n
    case WordBoundary => before != after
    case NotWordBoundary => before == after
    case WordStart => !before && after
    case WordEnd => before && !after
  }

  /** Whether a single-character node accepts a character. */
  ghost predicate Accepts(s: Subject, n: Node, c: nat)
    requires SingleChar(n)
  {
    match n
    case Literal(d) => c == d
    case AnyChar => s.dotall || c != NEWLINE
    case OneOf(cs) => InSet(cs, c)
  }

  predicate SingleChar(n: Node) {
    n.Literal? || n.AnyChar? || n.OneOf?
  }

  // ----- meaning of a tree

  /** `n` can match exactly the characters `[i, j)` of `s`. */
  ghost predicate Matches(s: Subject, n: Node, i: nat, j: nat)
    decreases n, 0
  {
    i <= j <= |s.text| &&
    match n
    case Empty => i == j
    case Literal(_) => j == i + 1 && Accepts(s, n, s.text[i])
    case AnyChar => j == i + 1 && Accepts(s, n, s.text[i])
    case OneOf(_) => j == i + 1 && Accepts(s, n, s.text[i])
    case Assert(a) => i == j && Holds(s, a, i)
    case Group(_, x) => Matches(s, x, i, j)
    case Look(negated, x) => i == j && negated != Sees(s, x, i)
    case Concat(items) => MatchesSeq(s, items, i, j)
    case Alt(branches) => exists b :: b in branches && Matches(s, b, i, j)
    case Repeat(x, min, max, _, _) => Reps(s, x, min, More(min, max), i, j)
  }

  /** `x` matches something from `i` on. */
  ghost predicate Sees(s: Subject, x: Node, i: nat)
    decreases x, 1
  {
    exists e :: Matches(s, x, i, e)
  }

  /** The items, one after the other, can match exactly `[i, j)`. */
  ghost predicate MatchesSeq(s: Subject, items: seq<Node>, i: nat, j: nat)
    decreases items, 0
  {
    if items == [] then i == j <= |s.text|
    else exists m :: Matches(s, items[0], i, m) && MatchesSeq(s, items[1..], m, j)
  }

  /** `k` copies of `x`, one after the other, can match exactly `[i, j)`. */
  ghost predicate Copies(s: Subject, x: Node, k: nat, i: nat, j: nat)
    decreases x, 1, k
  {
    if k == 0 then i == j <= |s.text|
    else exists m :: Matches(s, x, i, m) && Copies(s, x, k - 1, m, j)
  }

  /** `min` copies of `x` and up to `more` others can match exactly `[i, j)`. */
  ghost predicate Reps(s: Subject, x: Node, min: nat, more: Option<nat>, i: nat, j: nat)
    decreases x, 2
  {
    exists k :: min <= k && (more.Some? ==> k <= min + more.value) && Copies(s, x, k, i, j)
  }

  /** How many copies past the minimum a quantifier allows. */
  function More(min: nat, max: Option<nat>): Option<nat> {
    if max.None? then None
    else if max.value > min then Some(max.value - min)
    else Some(0)
  }

  /** The first item's end, in a match of a non-empty sequence. */
  lemma SplitSeq(s: Subject, items: seq<Node>, i: nat, j: nat) returns (m: nat)
    requires items != [] && MatchesSeq(s, items, i, j)
    ensures Matches(s, items[0], i, m) && MatchesSeq(s, items[1..], m, j)
  {
    m :| Matches(s, items[0], i, m) && MatchesSeq(s, items[1..], m, j);
  }

  lemma JoinSeq(s: Subject, items: seq<Node>, i: nat, m: nat, j: nat)
    requires items != [] && Matches(s, items[0], i, m) && MatchesSeq(s, items[1..], m, j)
    ensures MatchesSeq(s, items, i, j)
  {
  }

  /** The first copy's end, in a match of one or more copies. */
  lemma SplitCopies(s: Subject, x: Node, k: nat, i: nat, j: nat) returns (m: nat)
    requires k > 0 && Copies(s, x, k, i, j)
    ensures Matches(s, x, i, m) && Copies(s, x, k - 1, m, j)
  {
    m :| Matches(s, x, i, m) && Copies(s, x, k - 1, m, j);
  }

  lemma JoinCopies(s: Subject, x: Node, k: nat, i: nat, m: nat, j: nat)
    requires k > 0 && Matches(s, x, i, m) && Copies(s, x, k - 1, m, j)
    ensures Copies(s, x, k, i, j)
  {
  }

  function Fewer(more: Option<nat>): Option<nat>
    requires more.Some? ==> more.value > 0
  {
    if more.Some? then Some(more.value - 1) else None
  }

  lemma {:induction false} MatchesSeqBounds(s: Subject, items: seq<Node>, i: nat, j: nat)
    requires MatchesSeq(s, items, i, j)
    ensures i <= j <= |s.text|
  {
    if items != [] {
      var m := SplitSeq(s, items, i, j);
      MatchesSeqBounds(s, items[1..], m, j);
    }
  }

  lemma {:induction false} CopiesBounds(s: Subject, x: Node, k: nat, i: nat, j: nat)
    requires Copies(s, x, k, i, j)
    ensures i <= j <= |s.text|
    decreases k
  {
    if k > 0 {
      var m := SplitCopies(s, x, k, i, j);
      CopiesBounds(s, x, k - 1, m, j);
    }
  }

  lemma MatchesSingleton(s: Subject, n: Node, i: nat, j: nat)
    ensures MatchesSeq(s, [n], i, j) <==> Matches(s, n, i, j)
  {
    assert [n][1..] == [];
    if Matches(s, n, i, j) {
      assert MatchesSeq(s, [n][1..], j, j);
    }
  }

  lemma {:induction false} AppendSeq(s: Subject, a: seq<Node>, b: seq<Node>, i: nat, m: nat, j: nat)
    requires MatchesSeq(s, a, i, m) && MatchesSeq(s, b, m, j)
    ensures MatchesSeq(s, a + b, i, j)
    decreases |a|
  {
    if a == [] {
      assert a + b == b;
    } else {
      var p := SplitSeq(s, a, i, m);
      AppendSeq(s, a[1..], b, p, m, j);
      assert (a + b)[0] == a[0] && (a + b)[1..] == a[1..] + b;
      JoinSeq(s, a + b, i, p, j);
    }
  }

  lemma {:induction false} DivideSeq(s: Subject, a: seq<Node>, b: seq<Node>, i: nat, j: nat) returns (m: nat)
    requires MatchesSeq(s, a + b, i, j)
    ensures MatchesSeq(s, a, i, m) && MatchesSeq(s, b, m, j)
    decreases |a|
  {
    if a == [] {
      assert a + b == b;
      m := i;
      MatchesSeqBounds(s, b, i, j);
    } else {
      assert (a + b)[0] == a[0] && (a + b)[1..] == a[1..] + b;
      var p := SplitSeq(s, a + b, i, j);
      m := DivideSeq(s, a[1..], b, p, j);
      JoinSeq(s, a, i, p, m);
    }
  }

  lemma {:induction false} AppendCopies(s: Subject, x: Node, a: nat, b: nat, i: nat, m: nat, j: nat)
    requires Copies(s, x, a, i, m) && Copies(s, x, b, m, j)
    ensures Copies(s, x, a + b, i, j)
    decreases a
  {
    if a > 0 {
      var p := SplitCopies(s, x, a, i, m);
      AppendCopies(s, x, a - 1, b, p, m, j);
      JoinCopies(s, x, a + b, i, p, j);
    }
  }

  /** The number of copies in a match of a repetition. */
  lemma CountOf(s: Subject, x: Node, min: nat, more: Option<nat>, i: nat, j: nat) returns (k: nat)
    requires Reps(s, x, min, more, i, j)
    ensures min <= k && (more.Some? ==> k <= min + more.value) && Copies(s, x, k, i, j)
  {
    k :| min <= k && (more.Some? ==> k <= min + more.value) && Copies(s, x, k, i, j);
  }

  lemma RepsBounds(s: Subject, x: Node, min: nat, more: Option<nat>, i: nat, j: nat)
    requires Reps(s, x, min, more, i, j)
    ensures i <= j <= |s.text|
  {
    var k :| min <= k && (more.Some? ==> k <= min + more.value) && Copies(s, x, k, i, j);
    CopiesBounds(s, x, k, i, j);
  }

  /** A mandatory copy in front. */
  lemma JoinReps(s: Subject, x: Node, min: nat, more: Option<nat>, i: nat, m: nat, j: nat)
    requires Matches(s, x, i, m) && Reps(s, x, min, more, m, j)
    ensures Reps(s, x, min + 1, more, i, j)
  {
    var k :| min <= k && (more.Some? ==> k <= min + more.value) && Copies(s, x, k, m, j);
    JoinCopies(s, x, k + 1, i, m, j);
  }

  lemma SplitReps(s: Subject, x: Node, min: nat, more: Option<nat>, i: nat, j: nat) returns (m: nat)
    requires min > 0 && Reps(s, x, min, more, i, j)
    ensures Matches(s, x, i, m) && Reps(s, x, min - 1, more, m, j)
  {
    var k :| min <= k && (more.Some? ==> k <= min + more.value) && Copies(s, x, k, i, j);
    m := SplitCopies(s, x, k, i, j);
  }

  /** An optional copy in front. */
  lemma JoinOption(s: Subject, x: Node, more: Option<nat>, i: nat, m: nat, j: nat)
    requires more.Some? ==> more.value > 0
    requires Matches(s, x, i, m) && Reps(s, x, 0, Fewer(more), m, j)
    ensures Reps(s, x, 0, more, i, j)
  {
    var k :| 0 <= k && (more.Some? ==> k <= more.value - 1) && Copies(s, x, k, m, j);
    JoinCopies(s, x, k + 1, i, m, j);
  }

  lemma NoReps(s: Subject, x: Node, more: Option<nat>, i: nat)
    requires i <= |s.text|
    ensures Reps(s, x, 0, more, i, i)
  {
    assert Copies(s, x, 0, i, i);
  }

  // ----- analyses

  /** What `regcomp` has checked before a pattern gets here. */
  ghost predicate WellFormed(n: Node, groups: nat)
    decreases n
  {
    match n
    case Empty => true
    case Literal(_) => true
    case AnyChar => true
    case OneOf(cs) => Normal(cs)
    case Assert(_) => true
    case Group(g, x) => (g.Some? ==> g.value <= groups) && WellFormed(x, groups)
    case Look(_, x) => WellFormed(x, groups)
    case Concat(items) => forall x | x in items :: WellFormed(x, groups)
    case Alt(branches) => branches != [] && forall x | x in branches :: WellFormed(x, groups)
    case Repeat(x, min, max, _, bare) =>
      (max.Some? ==> min <= max.value) && (bare ==> max == Some(min)) && WellFormed(x, groups)
  }

  predicate Nullable(n: Node)
    decreases n
  {
    match n
    case Empty => true
    case Literal(_) => false
    case AnyChar => false
    case OneOf(_) => false
    case Assert(_) => true
    case Group(_, x) => Nullable(x)
    case Look(_, _) => true
    case Concat(items) => forall k | 0 <= k < |items| :: Nullable(items[k])
    case Alt(branches) => exists k | 0 <= k < |branches| :: Nullable(branches[k])
    case Repeat(x, min, _, _, _) => min == 0 || Nullable(x)
  }

  function PrefOf(n: Node): Pref
    decreases n, 0
  {
    match n
    case Empty => NoPref
    case Literal(_) => NoPref
    case AnyChar => NoPref
    case OneOf(_) => NoPref
    case Assert(_) => NoPref
    case Group(_, x) => PrefOf(x)
    case Look(_, _) => NoPref
    case Concat(items) => PrefOfSeq(items)
    case Alt(_) => Longest
    case Repeat(x, _, max, greedy, bare) =>
      if max == Some(0) then NoPref
      else if bare then PrefOf(x)
      else if greedy then Longest
      else Shortest
  }

  /** The first preference among the items. */
  function PrefOfSeq(items: seq<Node>): Pref
    decreases items, 0
  {
    if items == [] then NoPref
    else if PrefOf(items[0]) != NoPref then PrefOf(items[0])
    else PrefOfSeq(items[1..])
  }

  /** A node that is not nullable never matches the empty string. */
  lemma {:induction false} NotNullableConsumes(s: Subject, n: Node, i: nat)
    requires Matches(s, n, i, i)
    ensures Nullable(n)
    decreases n, 0
  {
    match n
    case Empty =>
    case Literal(_) =>
    case AnyChar =>
    case OneOf(_) =>
    case Assert(_) =>
    case Group(_, x) => NotNullableConsumes(s, x, i);
    case Look(_, _) =>
    case Concat(items) => NotNullableConsumesSeq(s, items, i);
    case Alt(branches) =>
      var b :| b in branches && Matches(s, b, i, i);
      NotNullableConsumes(s, b, i);
    case Repeat(x, min, max, _, _) =>
      if min > 0 {
        var m := SplitReps(s, x, min, More(min, max), i, i);
        RepsBounds(s, x, min - 1, More(min, max), m, i);
        NotNullableConsumes(s, x, i);
      }
  }

  lemma {:induction false} NotNullableConsumesSeq(s: Subject, items: seq<Node>, i: nat)
    requires MatchesSeq(s, items, i, i)
    ensures forall k | 0 <= k < |items| :: Nullable(items[k])
    decreases items, 0
  {
    if items != [] {
      var m := SplitSeq(s, items, i, i);
      MatchesSeqBounds(s, items[1..], m, i);
      NotNullableConsumes(s, items[0], i);
      NotNullableConsumesSeq(s, items[1..], i);
      forall k | 0 <= k < |items| ensures Nullable(items[k]) {
        if k > 0 { assert items[k] == items[1..][k - 1]; }
      }
    }
  }

  /**
   A tree without a preference matches at most one length from a position,
   which is why the search may stop at the first match it finds.
   */
  lemma {:induction false} NoPrefIsUnique(s: Subject, n: Node, groups: nat, i: nat, j: nat, k: nat)
    requires WellFormed(n, groups) && PrefOf(n) == NoPref
    requires Matches(s, n, i, j) && Matches(s, n, i, k)
    ensures j == k
    decreases n, 0
  {
    match n
    case Empty =>
    case Literal(_) =>
    case AnyChar =>
    case OneOf(_) =>
    case Assert(_) =>
    case Group(_, x) => NoPrefIsUnique(s, x, groups, i, j, k);
    case Look(_, _) =>
    case Concat(items) => NoPrefIsUniqueSeq(s, items, groups, i, j, k);
    case Alt(_) =>
    case Repeat(x, min, max, _, _) =>
      assert max == Some(min);
      assert Copies(s, x, min, i, j) && Copies(s, x, min, i, k);
      if min > 0 {
        NoPrefIsUniqueCopies(s, x, groups, min, i, j, k);
      }
  }

  lemma {:induction false} NoPrefIsUniqueSeq(s: Subject, items: seq<Node>, groups: nat, i: nat, j: nat, k: nat)
    requires forall x | x in items :: WellFormed(x, groups)
    requires PrefOfSeq(items) == NoPref
    requires MatchesSeq(s, items, i, j) && MatchesSeq(s, items, i, k)
    ensures j == k
    decreases items, 0
  {
    if items != [] {
      var p := SplitSeq(s, items, i, j);
      var q := SplitSeq(s, items, i, k);
      NoPrefIsUnique(s, items[0], groups, i, p, q);
      NoPrefIsUniqueSeq(s, items[1..], groups, p, j, k);
    }
  }

  lemma {:induction false} NoPrefIsUniqueCopies(s: Subject, x: Node, groups: nat, c: nat, i: nat, j: nat, k: nat)
    requires WellFormed(x, groups) && PrefOf(x) == NoPref
    requires Copies(s, x, c, i, j) && Copies(s, x, c, i, k)
    ensures j == k
    decreases x, 1, c
  {
    if c > 0 {
      var p := SplitCopies(s, x, c, i, j);
      var q := SplitCopies(s, x, c, i, k);
      NoPrefIsUnique(s, x, groups, i, p, q);
      NoPrefIsUniqueCopies(s, x, groups, c - 1, p, j, k);
    }
  }
}
