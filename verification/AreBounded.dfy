/**
 The one case in which a span that is matched cannot be taken apart, shown on
 `([ab]c??d??){0,2}` against `abcde`.  The group prefers its shortest match and
 may be repeated twice: the search ends the first copy at `a` and will only try
 the second at its shortest, `b`, so of the spans from 0 to 4, 3 and 2, which
 the pattern matches in that order of preference, only the last can be answered.
 */
module AreBounded {
  import opened Wrappers
  import opened AreSyntax
  import opened AreDissection
  import opened ArePlan
  import opened AreRules
  import opened AreCompleteness
  import opened AreExec

  function Abcde(): Subject {
    Subject([97, 98, 99, 100, 101], false, false, false, {})
  }

  /** `x??` */
  function Reluctantly(c: nat): Node {
    Repeat(Literal(c), 0, Some(1), false, false)
  }

  function AorB(): Node {
    OneOf(CharSet([(97, 98)], false))
  }

  /** `[ab]c??d??` */
  function Body(): Node {
    Concat([AorB(), Reluctantly(99), Reluctantly(100)])
  }

  function Grouped(): Node {
    Group(Some(1), Body())
  }

  /** `([ab]c??d??){0,2}` */
  function Twice(): Node {
    Repeat(Grouped(), 0, Some(2), true, false)
  }

  function TwiceThenE(): Node {
    Concat([Twice(), Literal(101)])
  }

  /** `([ab]c??d??){0,2}e|b` */
  function TwiceThenEOrB(): Node {
    Alt([TwiceThenE(), Literal(98)])
  }

  lemma ReluctantlyMatches(s: Subject, c: nat, i: nat, j: nat)
    ensures Matches(s, Reluctantly(c), i, j) <==> (i == j <= |s.text|) || (j == i + 1 <= |s.text| && s.text[i] == c)
  {
    var x := Literal(c);
    assert Matches(s, Reluctantly(c), i, j) <==> i <= j <= |s.text| && Reps(s, x, 0, Some(1), i, j);
    if Reps(s, x, 0, Some(1), i, j) {
      var k :| 0 <= k <= 1 && Copies(s, x, k, i, j);
      if k == 1 {
        var m := SplitCopies(s, x, 1, i, j);
        assert m == j;
      }
    }
    if i == j <= |s.text| {
      NoReps(s, x, Some(1), i);
    }
    if j == i + 1 <= |s.text| && s.text[i] == c {
      assert Copies(s, x, 0, j, j);
      JoinCopies(s, x, 1, i, j, j);
    }
  }

  lemma SplitThree(s: Subject, a: Node, b: Node, c: Node, i: nat, j: nat) returns (p: nat, q: nat)
    requires MatchesSeq(s, [a, b, c], i, j)
    ensures Matches(s, a, i, p) && Matches(s, b, p, q) && Matches(s, c, q, j)
  {
    assert [a, b, c][1..] == [b, c] && [b, c][1..] == [c];
    p := SplitSeq(s, [a, b, c], i, j);
    q := SplitSeq(s, [b, c], p, j);
    MatchesSingleton(s, c, q, j);
  }

  lemma JoinThree(s: Subject, a: Node, b: Node, c: Node, i: nat, p: nat, q: nat, j: nat)
    requires Matches(s, a, i, p) && Matches(s, b, p, q) && Matches(s, c, q, j)
    ensures MatchesSeq(s, [a, b, c], i, j)
  {
    assert [a, b, c][1..] == [b, c] && [b, c][1..] == [c];
    MatchesSingleton(s, c, q, j);
    JoinSeq(s, [b, c], p, q, j);
    JoinSeq(s, [a, b, c], i, p, j);
  }

  /** The body matches `a`, and from the `b` on `b`, `bc` and `bcd`. */
  lemma BodyMatches(i: nat, j: nat)
    ensures Matches(Abcde(), Body(), i, j) <==> (i == 0 && j == 1) || (i == 1 && 2 <= j <= 4)
  {
    var s := Abcde();
    forall p ensures Matches(s, AorB(), i, p) <==> i <= 1 && p == i + 1 {
      assert AorB().set_.ranges == [(97, 98)];
      if i < 5 {
        assert (97, 98) in AorB().set_.ranges;
        assert s.text[i] == 97 + i;
      }
    }
    forall p, q ensures Matches(s, Reluctantly(99), p, q) <==> (p == q <= 5) || (p == 2 && q == 3) {
      ReluctantlyMatches(s, 99, p, q);
    }
    forall p, q ensures Matches(s, Reluctantly(100), p, q) <==> (p == q <= 5) || (p == 3 && q == 4) {
      ReluctantlyMatches(s, 100, p, q);
    }
    hide Matches, MatchesSeq;
    ConcatIsSeq(s, [AorB(), Reluctantly(99), Reluctantly(100)], i, j);
    if Matches(s, Body(), i, j) {
      var p, q := SplitThree(s, AorB(), Reluctantly(99), Reluctantly(100), i, j);
    }
    if i == 0 && j == 1 {
      JoinThree(s, AorB(), Reluctantly(99), Reluctantly(100), 0, 1, 1, 1);
    }
    if i == 1 && 2 <= j <= 4 {
      JoinThree(s, AorB(), Reluctantly(99), Reluctantly(100), 1, 2, if j == 2 then 2 else 3, j);
    }
  }

  lemma ConcatIsSeq(s: Subject, items: seq<Node>, i: nat, j: nat)
    ensures Matches(s, Concat(items), i, j) <==> MatchesSeq(s, items, i, j)
  {
    if MatchesSeq(s, items, i, j) { MatchesSeqBounds(s, items, i, j); }
  }

  lemma BodyPrefers()
    ensures PrefOf(Body()) == Shortest && Plain(Body())
  {
    var items := [AorB(), Reluctantly(99), Reluctantly(100)];
    assert forall k :: 0 <= k < 3 ==> Plain(items[k]);
    assert items[1..] == [Reluctantly(99), Reluctantly(100)];
    assert PrefOf(items[0]) == NoPref && PrefOf(items[1..][0]) == Shortest;
    assert PrefOfSeq(items[1..]) == Shortest;
    assert PrefOfSeq(items) == Shortest;
  }

  lemma BodyIsFormed()
    ensures WellFormed(Body(), 1)
  {
    var items := [AorB(), Reluctantly(99), Reluctantly(100)];
    assert WellFormed(items[0], 1) && WellFormed(items[1], 1) && WellFormed(items[2], 1);
  }

  lemma TwiceIs()
    ensures PrefOf(Grouped()) == Shortest && Captures(Grouped()) && Captures(Twice()) && PrefOf(Twice()) == Longest
    ensures Reluctant(Choices(Grouped())) && Plain(Body())
    ensures WellFormed(Twice(), 1) && !Free(Twice(), 5)
  {
    BodyPrefers();
    FirstChoiceDecides(Grouped());
    hide Body, Choices;
    assert WellFormed(Body(), 1) by { BodyIsFormed(); }
  }

  /** The group matches what its body does, and all of it can be taken apart. */
  lemma GroupedMatches(i: nat, j: nat)
    ensures Matches(Abcde(), Grouped(), i, j) <==> (i == 0 && j == 1) || (i == 1 && 2 <= j <= 4)
    ensures Dissects(Abcde(), Grouped(), i, j) <==> (i == 0 && j == 1) || (i == 1 && 2 <= j <= 4)
  {
    BodyMatches(i, j);
    TwiceIs();
    hide Body;
    assert Dissects(Abcde(), Grouped(), i, j) <==> Matches(Abcde(), Grouped(), i, j) && Dissects(Abcde(), Body(), i, j);
  }

  lemma TwiceMatches(i: nat, j: nat)
    ensures Matches(Abcde(), Twice(), i, j) <==> i == j <= 5 || (i == 0 && 1 <= j <= 4) || (i == 1 && 2 <= j <= 4)
  {
    var s, x := Abcde(), Grouped();
    assert Matches(s, Twice(), i, j) <==> i <= j <= 5 && Reps(s, x, 0, Some(2), i, j);
    forall a, b ensures Matches(s, x, a, b) <==> (a == 0 && b == 1) || (a == 1 && 2 <= b <= 4) { GroupedMatches(a, b); }
    hide *;
    UpToTwo(s, x, i, j);
  }

  lemma UpToTwo(s: Subject, x: Node, i: nat, j: nat)
    requires |s.text| == 5 && forall a, b :: Matches(s, x, a, b) <==> (a == 0 && b == 1) || (a == 1 && 2 <= b <= 4)
    ensures Reps(s, x, 0, Some(2), i, j) <==> i == j <= 5 || (i == 0 && 1 <= j <= 4) || (i == 1 && 2 <= j <= 4)
  {
    hide Matches;
    forall a: nat ensures j <= 5 ==> (Copies(s, x, 1, a, j) <==> Matches(s, x, a, j)) {
      if j <= 5 { OneCopy(s, x, a, j); }
    }
    if Reps(s, x, 0, Some(2), i, j) {
      var k := CountOf(s, x, 0, Some(2), i, j);
      if k == 2 { var m := SplitCopies(s, x, 2, i, j); }
    }
    if i == j <= 5 { NoReps(s, x, Some(2), i); }
    if (i == 0 && j == 1) || (i == 1 && 2 <= j <= 4) { assert Copies(s, x, 1, i, j); }
    if i == 0 && 2 <= j <= 4 { JoinCopies(s, x, 2, 0, 1, j); }
  }

  lemma OneCopy(s: Subject, x: Node, i: nat, j: nat)
    requires j <= |s.text|
    ensures Copies(s, x, 1, i, j) <==> Matches(s, x, i, j)
  {
    hide Matches;
    if Copies(s, x, 1, i, j) { var m := SplitCopies(s, x, 1, i, j); assert Copies(s, x, 0, m, j); }
    if Matches(s, x, i, j) { assert Copies(s, x, 0, j, j); JoinCopies(s, x, 1, i, j, j); }
  }

  /** Two copies from 0 end at the shortest of the second; one copy from 1 may be any. */
  lemma TwiceDissects(i: nat, j: nat)
    requires i <= 1 && 2 <= j <= 4
    ensures Dissects(Abcde(), Twice(), i, j) <==> i == 1 || j == 2
  {
    var s, x := Abcde(), Grouped();
    TwiceMatches(i, j);
    TwiceIs();
    hide Body, Grouped, Abcde;
    forall a, b ensures Dissects(s, x, a, b) <==> (a == 0 && b == 1) || (a == 1 && 2 <= b <= 4) { GroupedMatches(a, b); }
    forall a, b ensures Matches(s, x, a, b) <==> (a == 0 && b == 1) || (a == 1 && 2 <= b <= 4) { GroupedMatches(a, b); }
    var m := MaxMatches(Some(2), i, j);
    assert Dissects(s, Twice(), i, j) <==> Divisible(s, x, m, i, j);
    hide Matches, Dissects, Choices, Captures, PrefOf, WellFormed, Free, Twice;
    if Divisible(s, x, m, i, j) {
      var ends := SomeDivision(s, x, m, i, j);
      OnlyShortest(s, x, ends, i, j);
    }
    if i == 1 {
      DivisionOfOne(s, x, m, [1, j], 1, j);
    } else if j == 2 {
      DivisionOfOne(s, x, 1, [1, 2], 1, 2);
      DivisionOfMore(s, x, 2, [1, 2], 0, 1, 2);
    }
  }

  lemma OnlyShortest(s: Subject, x: Node, ends: seq<nat>, i: nat, j: nat)
    requires forall a, b :: Dissects(s, x, a, b) <==> (a == 0 && b == 1) || (a == 1 && 2 <= b <= 4)
    requires forall a, b :: Matches(s, x, a, b) <==> (a == 0 && b == 1) || (a == 1 && 2 <= b <= 4)
    requires Reluctant(Choices(x)) && i <= 1 && 2 <= j <= 4 && Division(s, x, MaxMatches(Some(2), i, j), ends, i, j)
    ensures i == 1 || j == 2
  {
    hide Matches, Dissects, Choices;
    FirstOfDivision(s, x, MaxMatches(Some(2), i, j), ends, i, j);
    assert Matches(s, x, 1, 2);
    if i == 0 && ends[1] < j {
      FirstOfDivision(s, x, 1, ends[1..], ends[1], j);
      assert NoShorter(s, x, ends[1], j);
    }
  }

  /**
   The pattern matches `[0, 4)`, `[0, 3)` and `[0, 2)` of its subject, but only the
   last of them can be taken apart.
   */
  lemma BoundedReluctantFails()
    ensures forall j :: 2 <= j <= 4 ==> Matches(Abcde(), Twice(), 0, j)
    ensures !Dissects(Abcde(), Twice(), 0, 4) && !Dissects(Abcde(), Twice(), 0, 3) && Dissects(Abcde(), Twice(), 0, 2)
  {
    forall j | 2 <= j <= 4 ensures Matches(Abcde(), Twice(), 0, j) && (Dissects(Abcde(), Twice(), 0, j) <==> j == 2) {
      TwiceMatches(0, j);
      TwiceDissects(0, j);
    }
  }

  /** So the span prescribed, `[0, 4)`, is not the answer: that is `[0, 2)`. */
  lemma PrescribedIsLost(span: Option<(nat, nat)>)
    requires Answer(Abcde(), Twice(), span)
    ensures Prescribed(Abcde(), Twice(), 0, 4) && span == Some((0, 2))
  {
    hide *;
    TwiceIs();
    BoundedReluctantFails();
    forall j: nat | Matches(Abcde(), Twice(), 0, j) ensures j <= 4 { TwiceMatches(0, j); }
    LostSpan(Abcde(), Twice(), 0, 2, 4, span);
  }

  /** What is answered when of the spans from 0 only one can be taken apart. */
  lemma LostSpan(s: Subject, n: Node, b: nat, e: nat, most: nat, span: Option<(nat, nat)>)
    requires Answer(s, n, span) && PrefOf(n) == Longest && b == 0 && Matches(s, n, b, most) && Dissects(s, n, b, e)
    requires forall j: nat :: Matches(s, n, b, j) ==> j <= most
    requires forall j: nat :: e < j <= most ==> !Dissects(s, n, b, j)
    ensures Prescribed(s, n, b, most) && span == Some((b, e))
  {
    hide Matches, Dissects, PrefOf;
    forall j: nat | Dissects(s, n, b, j) ensures j <= e { DissectsMatches(s, n, b, j); }
    assert BestAt(s, n, b, e);
    AnswerIsUnique(s, n, span, Some((b, e)));
  }

  // ----- an end that further left ends a match that cannot be taken apart

  lemma ThenEMatches(i: nat, j: nat)
    requires i <= 1
    ensures Matches(Abcde(), TwiceThenE(), i, j) <==> j == 5
    ensures Dissects(Abcde(), TwiceThenE(), i, j) <==> i == 1 && j == 5
  {
    var s, items, e := Abcde(), [Twice(), Literal(101)], [Literal(101)];
    TwiceIs();
    hide Twice, Grouped, Body;
    TwiceMatches(i, 4);
    TwiceDissects(i, 4);
    assert items[0] == Twice() && items[1..] == e;
    forall m ensures MatchesSeq(s, e, m, j) <==> m == 4 && j == 5 {
      MatchesSingleton(s, Literal(101), m, j);
      LiteralE(m, j);
    }
    forall m ensures DissectsSeq(s, e, m, j) <==> m == 4 && j == 5 {
      LastIsPlain(s, Literal(101), m, j);
    }
    hide Matches, DissectsSeq, MatchesSeq, Abcde;
    ThenEIs(i, j);
    SeqOfTwo(s, items, i, j);
  }

  lemma ThenEIs(i: nat, j: nat)
    ensures
      var s, items := Abcde(), [Twice(), Literal(101)];
      && Captures(TwiceThenE())
      && (Matches(s, TwiceThenE(), i, j) <==> MatchesSeq(s, items, i, j))
      && (Dissects(s, TwiceThenE(), i, j) <==> MatchesSeq(s, items, i, j) && DissectsSeq(s, items, i, j))
  {
    var s, items := Abcde(), [Twice(), Literal(101)];
    TwiceIs();
    hide Twice, Grouped, Body, Abcde;
    ConcatIsSeq(s, items, i, j);
    assert Captures(items[0]);
  }

  lemma LiteralE(m: nat, j: nat)
    ensures Matches(Abcde(), Literal(101), m, j) <==> m == 4 && j == 5
  {
    if m < 5 { assert Abcde().text[m] == 97 + m; }
  }

  lemma LastIsPlain(s: Subject, x: Node, i: nat, j: nat)
    requires Plain(x)
    ensures DissectsSeq(s, [x], i, j) <==> MatchesSeq(s, [x], i, j)
  {
    var items := [x];
    assert items[..1] == items && items[1..] == [];
    if MatchesSeq(s, items, i, j) {
      MatchesSeqBounds(s, items, i, j);
      assert DissectsSeq(s, items[1..], j, j);
      assert Split(s, items, i, j, j);
    }
    if DissectsSeq(s, items, i, j) { DissectsSeqMatches(s, items, i, j); }
  }

  lemma SeqOfTwo(s: Subject, items: seq<Node>, i: nat, j: nat)
    requires |items| == 2 && Captures(items[0])
    ensures
      var rest := items[1..];
      && (MatchesSeq(s, items, i, j) <==> exists m: nat :: Matches(s, items[0], i, m) && MatchesSeq(s, rest, m, j))
      && (DissectsSeq(s, items, i, j) <==> exists m: nat :: Dissects(s, items[0], i, m) && DissectsSeq(s, rest, m, j))
  {
    var rest := items[1..];
    assert items != [] && PartLen(items) == 1;
    if DissectsSeq(s, items, i, j) {
      var m := SomeSplit(s, items, i, j);
      assert Dissects(s, items[0], i, m) && DissectsSeq(s, rest, m, j);
    }
    if m: nat :| Dissects(s, items[0], i, m) && DissectsSeq(s, rest, m, j) {
      SplitDissects(s, items, i, j, m);
    }
    if MatchesSeq(s, items, i, j) {
      var m := SplitSeq(s, items, i, j);
      assert Matches(s, items[0], i, m) && MatchesSeq(s, rest, m, j);
    }
    if m: nat :| Matches(s, items[0], i, m) && MatchesSeq(s, rest, m, j) {
      JoinSeq(s, items, i, m, j);
    }
  }

  /**
   From 0 the pattern matches only `[0, 5)`, which cannot be taken apart; the
   answer is `[1, 2)`, though `[1, 5)` is longer, because 5 has ended a match.
   */
  lemma AnswerIsCutShort(span: Option<(nat, nat)>)
    requires Answer(Abcde(), TwiceThenEOrB(), span)
    ensures span == Some((1, 2)) && PrefOf(TwiceThenEOrB()) == Longest && Dissects(Abcde(), TwiceThenEOrB(), 1, 5)
  {
    forall i, j | i <= 1
      ensures Matches(Abcde(), TwiceThenEOrB(), i, j) <==> j == 5 || (i == 1 && j == 2)
      ensures Dissects(Abcde(), TwiceThenEOrB(), i, j) <==> i == 1 && (j == 5 || j == 2)
    {
      EitherMatches(i, j);
    }
    CutSpan(Abcde(), TwiceThenEOrB(), span);
  }

  lemma CutSpan(s: Subject, n: Node, span: Option<(nat, nat)>)
    requires Answer(s, n, span) && PrefOf(n) == Longest
    requires forall i, j | i <= 1 :: Matches(s, n, i, j) <==> j == 5 || (i == 1 && j == 2)
    requires forall i, j | i <= 1 :: Dissects(s, n, i, j) <==> i == 1 && (j == 5 || j == 2)
    ensures span == Some((1, 2))
  {
    hide Matches, Dissects, PrefOf;
    assert MatchedBefore(s, n, 1, 5) by { assert Matches(s, n, 0, 5); }
    assert BestAt(s, n, 1, 2);
    AnswerIsUnique(s, n, span, Some((1, 2)));
  }

  lemma EitherMatches(i: nat, j: nat)
    requires i <= 1
    ensures Matches(Abcde(), TwiceThenEOrB(), i, j) <==> j == 5 || (i == 1 && j == 2)
    ensures Dissects(Abcde(), TwiceThenEOrB(), i, j) <==> i == 1 && (j == 5 || j == 2)
  {
    var s, b := Abcde(), Literal(98);
    assert Matches(s, b, i, j) <==> i == 1 && j == 2;
    assert TwiceThenEOrB() == Alt([TwiceThenE(), b]);
    assert Plain(b);
    hide *;
    ThenEMatches(i, j);
    ThenEIs(i, j);
    EitherOf(s, TwiceThenE(), b, i, j);
  }

  lemma EitherOf(s: Subject, a: Node, b: Node, i: nat, j: nat)
    requires Captures(a) && Plain(b)
    ensures Matches(s, Alt([a, b]), i, j) <==> Matches(s, a, i, j) || Matches(s, b, i, j)
    ensures Dissects(s, Alt([a, b]), i, j) <==> Dissects(s, a, i, j) || Matches(s, b, i, j)
  {
    var branches := [a, b];
    assert branches[0] == a && branches[1] == b;
    assert Captures(Alt(branches)) by { assert Captures(branches[0]); }
    assert forall n :: n in branches <==> n == a || n == b;
    assert Dissects(s, b, i, j) <==> Matches(s, b, i, j);
    assert Dissects(s, a, i, j) ==> Matches(s, a, i, j);
    if Matches(s, a, i, j) { CopyBounds(s, a, i, j); }
    if Matches(s, b, i, j) { CopyBounds(s, b, i, j); }
  }
}
