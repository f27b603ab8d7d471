/**
 What the instructions of a program do to a position, and why the code of a tree
 reaches exactly the ends the tree denotes.

 `CanStep` is one instruction's effect, with `Check` read as always passing.
 Soundness: `Rest` gives every address inside the code of a tree its residual
 meaning, and a step never enlarges it.  Completeness: any set of configurations
 that is `Settled` and holds the code's entry holds its exit at every end the
 tree denotes, even when a refused `Check` has left its successor out.
 */
module AreSteps {
  import opened Wrappers
  import opened AreSyntax
  import opened AreProgram

  /** An instruction address and a position of the subject. */
  datatype Config = Config(pc: nat, pos: nat)

  ghost predicate CanStep(s: Subject, img: Image, prog: seq<Inst>, a: Config, b: Config) {
    a.pc < |prog| && a.pos <= |s.text| &&
    match prog[a.pc]
    case Char(c) => a.pos < |s.text| && s.text[a.pos] == c && b == Config(a.pc + 1, a.pos + 1)
    case Any => a.pos < |s.text| && (s.dotall || s.text[a.pos] != NEWLINE) && b == Config(a.pc + 1, a.pos + 1)
    case Set(k) =>
      a.pos < |s.text| && k < |img.sets| && InSet(img.sets[k], s.text[a.pos]) && b == Config(a.pc + 1, a.pos + 1)
    case Split(first, second) => b == Config(first, a.pos) || b == Config(second, a.pos)
    case Jmp(target) => b == Config(target, a.pos)
    case Save(_) => b == Config(a.pc + 1, a.pos)
    case Zero(cond) => Holds(s, cond, a.pos) && b == Config(a.pc + 1, a.pos)
    case Ahead(negated, sub) =>
      sub < |img.looks| && negated != Sees(s, img.looks[sub], a.pos) && b == Config(a.pc + 1, a.pos)
    case Mark(_) => b == Config(a.pc + 1, a.pos)
    case Check(_) => b == Config(a.pc + 1, a.pos)
    case Match => false
  }

  /** A step of an instruction that does not test the subject. */
  lemma PlainStep(s: Subject, img: Image, prog: seq<Inst>, a: Config, b: Config)
    requires CanStep(s, img, prog, a, b)
    ensures a.pc < |prog| && a.pos <= |s.text| && b.pos <= |s.text|
    ensures prog[a.pc].Split? ==> b == Config(prog[a.pc].first, a.pos) || b == Config(prog[a.pc].second, a.pos)
    ensures prog[a.pc].Jmp? ==> b == Config(prog[a.pc].target, a.pos)
    ensures prog[a.pc].Save? || prog[a.pc].Mark? || prog[a.pc].Check? ==> b == Config(a.pc + 1, a.pos)
  {
  }

  // ----- soundness: residual meanings

  /** From address `pc` inside the code of `n` at `lo`, position `pos`, the code can end at `j`. */
  ghost predicate Rest(s: Subject, n: Node, lo: nat, pc: nat, pos: nat, j: nat)
    decreases n, 0
  {
    match n
    case Empty => false
    case Literal(_) => Matches(s, n, pos, j)
    case AnyChar => Matches(s, n, pos, j)
    case OneOf(_) => Matches(s, n, pos, j)
    case Assert(_) => Matches(s, n, pos, j)
    case Look(_, _) => Matches(s, n, pos, j)
    case Group(g, x) =>
      if g.None? then Rest(s, x, lo, pc, pos, j)
      else if pc == lo then Matches(s, x, pos, j)
      else if pc < lo + 1 + Len(x) then Rest(s, x, lo + 1, pc, pos, j)
      else pos == j
    case Concat(items) => RestSeq(s, items, lo, pc, pos, j)
    case Alt(branches) => RestAlt(s, branches, lo, pc, pos, j)
    case Repeat(x, min, max, _, _) => RestReps(s, x, min, More(min, max), lo, pc, pos, j)
  }

  ghost predicate RestSeq(s: Subject, items: seq<Node>, lo: nat, pc: nat, pos: nat, j: nat)
    decreases items, 0
  {
    if items == [] then false
    else if pc < lo + Len(items[0]) then
      exists m :: Rest(s, items[0], lo, pc, pos, m) && MatchesSeq(s, items[1..], m, j)
    else RestSeq(s, items[1..], lo + Len(items[0]), pc, pos, j)
  }

  ghost predicate RestAlt(s: Subject, branches: seq<Node>, lo: nat, pc: nat, pos: nat, j: nat)
    decreases branches, 0
  {
    if branches == [] then false
    else if |branches| == 1 then Rest(s, branches[0], lo, pc, pos, j)
    else if pc == lo then exists b :: b in branches && Matches(s, b, pos, j)
    else if pc < lo + 1 + Len(branches[0]) then Rest(s, branches[0], lo + 1, pc, pos, j)
    else if pc == lo + 1 + Len(branches[0]) then pos == j
    else RestAlt(s, branches[1..], lo + Len(branches[0]) + 2, pc, pos, j)
  }

  ghost predicate RestReps(s: Subject, x: Node, min: nat, more: Option<nat>, lo: nat, pc: nat, pos: nat, j: nat)
    decreases x, 4, min
  {
    if min == 0 then RestTail(s, x, more, lo, pc, pos, j)
    else if pc < lo + Len(x) then RestThen(s, x, lo, pc, pos, min - 1, more, j)
    else RestReps(s, x, min - 1, more, lo + Len(x), pc, pos, j)
  }

  ghost predicate RestTail(s: Subject, x: Node, more: Option<nat>, top: nat, pc: nat, pos: nat, j: nat)
    decreases x, 3
  {
    if more.Some? then RestOptions(s, x, more.value, top, pc, pos, j)
    else RestStar(s, x, top, pc, pos, j)
  }

  ghost predicate RestOptions(s: Subject, x: Node, k: nat, lo: nat, pc: nat, pos: nat, j: nat)
    decreases x, 2, k
  {
    if k == 0 then false
    else if pc == lo then Reps(s, x, 0, Some(k), pos, j)
    else if pc < lo + 1 + Len(x) then RestThen(s, x, lo + 1, pc, pos, 0, Some(k - 1), j)
    else RestOptions(s, x, k - 1, lo + 1 + Len(x), pc, pos, j)
  }

  ghost predicate RestStar(s: Subject, x: Node, top: nat, pc: nat, pos: nat, j: nat)
    decreases x, 2
  {
    var body := if Nullable(x) then top + 2 else top + 1;
    if pc == top || pc >= body + Len(x) then Reps(s, x, 0, None, pos, j)
    else if pc < body then MatchThen(s, x, pos, 0, None, j)
    else RestThen(s, x, body, pc, pos, 0, None, j)
  }

  /** The rest of one copy of `x`, then `min` copies and up to `more` others. */
  ghost predicate RestThen(s: Subject, x: Node, lo: nat, pc: nat, pos: nat, min: nat, more: Option<nat>, j: nat)
    decreases x, 1
  {
    exists m :: Rest(s, x, lo, pc, pos, m) && Reps(s, x, min, more, m, j)
  }

  ghost predicate MatchThen(s: Subject, x: Node, pos: nat, min: nat, more: Option<nat>, j: nat) {
    exists m :: Matches(s, x, pos, m) && Reps(s, x, min, more, m, j)
  }

  /** The residual meaning with the exit of the code included. */
  ghost predicate RestAt(s: Subject, n: Node, lo: nat, pc: nat, pos: nat, j: nat) {
    if pc == lo + Len(n) then pos == j else Rest(s, n, lo, pc, pos, j)
  }

  ghost predicate RestAtSeq(s: Subject, items: seq<Node>, lo: nat, pc: nat, pos: nat, j: nat) {
    if pc == lo + SeqLen(items) then pos == j else RestSeq(s, items, lo, pc, pos, j)
  }

  ghost predicate RestAtAlt(s: Subject, branches: seq<Node>, lo: nat, pc: nat, pos: nat, j: nat) {
    if pc == lo + AltLen(branches) then pos == j else RestAlt(s, branches, lo, pc, pos, j)
  }

  ghost predicate RestAtReps(s: Subject, x: Node, min: nat, more: Option<nat>, lo: nat, pc: nat, pos: nat, j: nat) {
    if pc == lo + CopiesLen(x, min) + TailLen(x, more) then pos == j
    else RestReps(s, x, min, more, lo, pc, pos, j)
  }

  ghost predicate RestAtTail(s: Subject, x: Node, more: Option<nat>, top: nat, pc: nat, pos: nat, j: nat) {
    if pc == top + TailLen(x, more) then pos == j else RestTail(s, x, more, top, pc, pos, j)
  }

  ghost predicate RestAtOptions(s: Subject, x: Node, k: nat, lo: nat, pc: nat, pos: nat, j: nat) {
    if pc == lo + OptionsLen(x, k) then pos == j else RestOptions(s, x, k, lo, pc, pos, j)
  }

  ghost predicate RestAtStar(s: Subject, x: Node, top: nat, pc: nat, pos: nat, j: nat) {
    if pc == top + TailLen(x, None) then pos == j else RestStar(s, x, top, pc, pos, j)
  }

  /** Inside, or just past, one copy of `x` followed by other copies. */
  ghost predicate RestAtThen(s: Subject, x: Node, lo: nat, pc: nat, pos: nat, min: nat, more: Option<nat>, j: nat) {
    if pc == lo + Len(x) then Reps(s, x, min, more, pos, j) else RestThen(s, x, lo, pc, pos, min, more, j)
  }

  // ----- entering the code of a tree

  /** A tree of no instructions matches the empty string everywhere. */
  lemma {:induction false} NoCodeMatchesEmpty(s: Subject, n: Node, groups: nat, i: nat)
    requires WellFormed(n, groups) && Len(n) == 0 && i <= |s.text|
    ensures Matches(s, n, i, i)
    decreases n, 0
  {
    match n
    case Empty =>
    case Literal(_) =>
    case AnyChar =>
    case OneOf(_) =>
    case Assert(_) =>
    case Look(_, _) =>
    case Group(g, x) => NoCodeMatchesEmpty(s, x, groups, i);
    case Concat(items) => NoCodeMatchesEmptySeq(s, items, groups, i);
    case Alt(branches) =>
      NoCodeMatchesEmpty(s, branches[0], groups, i);
    case Repeat(x, min, max, _, _) =>
      if min > 0 { NoCodeMatchesEmpty(s, x, groups, i); }
      NoCodeMatchesEmptyReps(s, x, min, More(min, max), i);
  }

  lemma {:induction false} NoCodeMatchesEmptySeq(s: Subject, items: seq<Node>, groups: nat, i: nat)
    requires forall x | x in items :: WellFormed(x, groups)
    requires SeqLen(items) == 0 && i <= |s.text|
    ensures MatchesSeq(s, items, i, i)
    decreases items, 0
  {
    if items != [] {
      NoCodeMatchesEmpty(s, items[0], groups, i);
      NoCodeMatchesEmptySeq(s, items[1..], groups, i);
    }
  }

  lemma {:induction false} NoCodeMatchesEmptyReps(s: Subject, x: Node, min: nat, more: Option<nat>, i: nat)
    requires min > 0 ==> Matches(s, x, i, i)
    requires i <= |s.text|
    ensures Reps(s, x, min, more, i, i)
    decreases min
  {
    if min == 0 {
      NoReps(s, x, more, i);
    } else {
      NoCodeMatchesEmptyReps(s, x, min - 1, more, i);
      JoinReps(s, x, min - 1, more, i, i, i);
    }
  }

  /** The residual meaning at the entry of the code is the meaning of the tree. */
  lemma {:induction false} RestEnter(s: Subject, n: Node, groups: nat, lo: nat, pos: nat, j: nat)
    requires WellFormed(n, groups) && pos <= |s.text|
    requires RestAt(s, n, lo, lo, pos, j)
    ensures Matches(s, n, pos, j)
    decreases n, 0
  {
    if Len(n) == 0 {
      NoCodeMatchesEmpty(s, n, groups, pos);
    } else {
      match n
      case Literal(_) =>
      case AnyChar =>
      case OneOf(_) =>
      case Assert(_) =>
      case Look(_, _) =>
      case Group(g, x) =>
        if g.None? { RestEnter(s, x, groups, lo, pos, j); }
      case Concat(items) =>
        RestEnterSeq(s, items, groups, lo, pos, j);
        MatchesSeqBounds(s, items, pos, j);
      case Alt(branches) => RestEnterAlt(s, branches, groups, lo, pos, j);
      case Repeat(x, min, max, _, _) =>
        RestEnterReps(s, x, groups, min, More(min, max), lo, pos, j);
        RepsBounds(s, x, min, More(min, max), pos, j);
    }
  }

  lemma {:induction false} RestEnterSeq(s: Subject, items: seq<Node>, groups: nat, lo: nat, pos: nat, j: nat)
    requires forall x | x in items :: WellFormed(x, groups)
    requires pos <= |s.text| && RestAtSeq(s, items, lo, lo, pos, j)
    ensures MatchesSeq(s, items, pos, j)
    decreases items, 0
  {
    if SeqLen(items) == 0 {
      NoCodeMatchesEmptySeq(s, items, groups, pos);
    } else if Len(items[0]) == 0 {
      NoCodeMatchesEmpty(s, items[0], groups, pos);
      RestEnterSeq(s, items[1..], groups, lo, pos, j);
      JoinSeq(s, items, pos, pos, j);
    } else {
      var m :| Rest(s, items[0], lo, lo, pos, m) && MatchesSeq(s, items[1..], m, j);
      RestEnter(s, items[0], groups, lo, pos, m);
      JoinSeq(s, items, pos, m, j);
    }
  }

  lemma {:induction false} RestEnterAlt(s: Subject, branches: seq<Node>, groups: nat, lo: nat, pos: nat, j: nat)
    requires branches != [] && forall x | x in branches :: WellFormed(x, groups)
    requires pos <= |s.text| && RestAtAlt(s, branches, lo, lo, pos, j)
    ensures exists b :: b in branches && Matches(s, b, pos, j)
    decreases branches, 0
  {
    if |branches| == 1 {
      RestEnter(s, branches[0], groups, lo, pos, j);
      assert branches[0] in branches;
    }
  }

  lemma {:induction false} RestEnterThen(s: Subject, x: Node, groups: nat, lo: nat, pos: nat, min: nat, more: Option<nat>, j: nat)
    requires WellFormed(x, groups) && pos <= |s.text|
    requires RestAtThen(s, x, lo, lo, pos, min, more, j)
    ensures MatchThen(s, x, pos, min, more, j)
    decreases x, 1
  {
    if Len(x) == 0 {
      NoCodeMatchesEmpty(s, x, groups, pos);
    } else {
      var m :| Rest(s, x, lo, lo, pos, m) && Reps(s, x, min, more, m, j);
      RestEnter(s, x, groups, lo, pos, m);
    }
  }

  lemma {:induction false} RestEnterReps(s: Subject, x: Node, groups: nat, min: nat, more: Option<nat>, lo: nat, pos: nat, j: nat)
    requires WellFormed(x, groups) && pos <= |s.text|
    requires RestAtReps(s, x, min, more, lo, lo, pos, j)
    ensures Reps(s, x, min, more, pos, j)
    decreases x, 2, min
  {
    if min == 0 {
      RestEnterTail(s, x, more, lo, pos, j);
    } else {
      if Len(x) == 0 {
        RestEnterReps(s, x, groups, min - 1, more, lo, pos, j);
      } else {
        assert RestReps(s, x, min, more, lo, lo, pos, j);
      }
      RestEnterThen(s, x, groups, lo, pos, min - 1, more, j);
      var m :| Matches(s, x, pos, m) && Reps(s, x, min - 1, more, m, j);
      JoinReps(s, x, min - 1, more, pos, m, j);
    }
  }

  lemma RestEnterTail(s: Subject, x: Node, more: Option<nat>, top: nat, pos: nat, j: nat)
    requires pos <= |s.text| && RestAtTail(s, x, more, top, top, pos, j)
    ensures Reps(s, x, 0, more, pos, j)
  {
    if more.Some? {
      RestEnterOptions(s, x, more.value, top, pos, j);
      assert more == Some(more.value);
    } else {
      assert RestStar(s, x, top, top, pos, j);
      assert more == None;
    }
  }

  lemma RestEnterOptions(s: Subject, x: Node, k: nat, lo: nat, pos: nat, j: nat)
    requires pos <= |s.text| && RestAtOptions(s, x, k, lo, lo, pos, j)
    ensures Reps(s, x, 0, Some(k), pos, j)
  {
    if k == 0 { NoReps(s, x, Some(k), pos); }
  }

  // ----- a step stays inside the code and does not enlarge the residual meaning

  lemma {:induction false} StepRest(s: Subject, img: Image, prog: seq<Inst>, n: Node, groups: nat, lo: nat, sl: nat, a: Config, b: Config, j: nat)
    requires WellFormed(n, groups) && Codes(img, prog, n, lo, sl)
    requires lo <= a.pc < lo + Len(n) && CanStep(s, img, prog, a, b)
    ensures lo <= b.pc <= lo + Len(n) && b.pos <= |s.text|
    ensures RestAt(s, n, lo, b.pc, b.pos, j) ==> Rest(s, n, lo, a.pc, a.pos, j)
    decreases n, 0
  {
    hide CanStep;
    match n
    case Literal(_) => StepRestLeaf(s, img, prog, n, lo, sl, a, b, j);
    case AnyChar => StepRestLeaf(s, img, prog, n, lo, sl, a, b, j);
    case OneOf(_) => StepRestLeaf(s, img, prog, n, lo, sl, a, b, j);
    case Assert(_) => StepRestLeaf(s, img, prog, n, lo, sl, a, b, j);
    case Look(_, _) => StepRestLeaf(s, img, prog, n, lo, sl, a, b, j);
    case Group(g, x) =>
      if g.None? {
        StepRest(s, img, prog, x, groups, lo, sl, a, b, j);
      } else {
        StepRestCapture(s, img, prog, n, groups, lo, sl, a, b, j);
      }
    case Concat(items) => StepRestSeq(s, img, prog, items, groups, lo, sl, a, b, j);
    case Alt(branches) => StepRestAlt(s, img, prog, branches, groups, lo, sl, a, b, j);
    case Repeat(x, min, max, greedy, _) =>
      StepRestReps(s, img, prog, x, groups, min, More(min, max), greedy, lo, sl, a, b, j);
  }

  predicate IsLeaf(n: Node) {
    n.Literal? || n.AnyChar? || n.OneOf? || n.Assert? || n.Look?
  }

  lemma StepRestLeaf(s: Subject, img: Image, prog: seq<Inst>, n: Node, lo: nat, sl: nat, a: Config, b: Config, j: nat)
    requires IsLeaf(n) && Codes(img, prog, n, lo, sl)
    requires a.pc == lo && CanStep(s, img, prog, a, b)
    ensures b.pc == lo + 1 && b.pos <= |s.text|
    ensures b.pos == j ==> Matches(s, n, a.pos, j)
  {
  }

  lemma {:induction false} StepRestCapture(s: Subject, img: Image, prog: seq<Inst>, n: Node, groups: nat, lo: nat, sl: nat, a: Config, b: Config, j: nat)
    requires n.Group? && n.number.Some?
    requires WellFormed(n, groups) && Codes(img, prog, n, lo, sl)
    requires lo <= a.pc < lo + Len(n) && CanStep(s, img, prog, a, b)
    ensures lo <= b.pc <= lo + Len(n) && b.pos <= |s.text|
    ensures RestAt(s, n, lo, b.pc, b.pos, j) ==> Rest(s, n, lo, a.pc, a.pos, j)
    decreases n.inner, 5
  {
    hide CanStep;
    PlainStep(s, img, prog, a, b);
    var x := n.inner;
    if a.pc == lo {
      if RestAt(s, n, lo, b.pc, b.pos, j) {
        RestEnter(s, x, groups, lo + 1, b.pos, j);
      }
    } else if a.pc < lo + 1 + Len(x) {
      StepRest(s, img, prog, x, groups, lo + 1, sl, a, b, j);
    }
  }

  lemma {:induction false} StepRestSeq(s: Subject, img: Image, prog: seq<Inst>, items: seq<Node>, groups: nat, lo: nat, sl: nat, a: Config, b: Config, j: nat)
    requires (forall x | x in items :: WellFormed(x, groups)) && CodesSeq(img, prog, items, lo, sl)
    requires lo <= a.pc < lo + SeqLen(items) && CanStep(s, img, prog, a, b)
    ensures lo <= b.pc <= lo + SeqLen(items) && b.pos <= |s.text|
    ensures RestAtSeq(s, items, lo, b.pc, b.pos, j) ==> RestSeq(s, items, lo, a.pc, a.pos, j)
    decreases items, 0
  {
    hide CanStep, Codes, Rest;
    var x, rest, mid := items[0], items[1..], lo + Len(items[0]);
    if mid <= a.pc {
      StepRestSeq(s, img, prog, rest, groups, mid, sl + Marks(x), a, b, j);
    } else {
      StepRest(s, img, prog, x, groups, lo, sl, a, b, b.pos);
      if RestAtSeq(s, items, lo, b.pc, b.pos, j) {
        if b.pc == mid {
          RestEnterSeq(s, rest, groups, mid, b.pos, j);
          assert Rest(s, x, lo, a.pc, a.pos, b.pos);
        } else {
          var m :| Rest(s, x, lo, b.pc, b.pos, m) && MatchesSeq(s, rest, m, j);
          StepRest(s, img, prog, x, groups, lo, sl, a, b, m);
          assert Rest(s, x, lo, a.pc, a.pos, m);
        }
      }
    }
  }

  lemma {:induction false} StepRestAlt(s: Subject, img: Image, prog: seq<Inst>, branches: seq<Node>, groups: nat, lo: nat, sl: nat, a: Config, b: Config, j: nat)
    requires (forall x | x in branches :: WellFormed(x, groups))
    requires CodesAlt(img, prog, branches, lo, sl, lo + AltLen(branches))
    requires lo <= a.pc < lo + AltLen(branches) && CanStep(s, img, prog, a, b)
    ensures lo <= b.pc <= lo + AltLen(branches) && b.pos <= |s.text|
    ensures RestAtAlt(s, branches, lo, b.pc, b.pos, j) ==> RestAlt(s, branches, lo, a.pc, a.pos, j)
    decreases branches, 0
  {
    hide CanStep, Codes, Rest;
    PlainStep(s, img, prog, a, b);
    var x, rest, next := branches[0], branches[1..], lo + Len(branches[0]) + 2;
    if |branches| == 1 {
      StepRest(s, img, prog, x, groups, lo, sl, a, b, j);
    } else if a.pc == lo {
      if RestAtAlt(s, branches, lo, b.pc, b.pos, j) {
        RestAltEntry(s, branches, groups, lo, b.pc, b.pos, j);
      }
    } else if a.pc < lo + 1 + Len(x) {
      StepRest(s, img, prog, x, groups, lo + 1, sl, a, b, j);
    } else if a.pc == lo + 1 + Len(x) {
    } else {
      StepRestAlt(s, img, prog, rest, groups, next, sl + Marks(x), a, b, j);
    }
  }

  lemma RestAltEntry(s: Subject, branches: seq<Node>, groups: nat, lo: nat, pc: nat, pos: nat, j: nat)
    requires |branches| > 1 && (forall x | x in branches :: WellFormed(x, groups)) && pos <= |s.text|
    requires pc == lo + 1 || pc == lo + Len(branches[0]) + 2
    requires RestAtAlt(s, branches, lo, pc, pos, j)
    ensures exists b :: b in branches && Matches(s, b, pos, j)
  {
    var x, rest, next := branches[0], branches[1..], lo + Len(branches[0]) + 2;
    if pc == lo + 1 {
      RestEnter(s, x, groups, lo + 1, pos, j);
      assert x in branches;
    } else {
      assert RestAtAlt(s, rest, next, next, pos, j);
      RestEnterAlt(s, rest, groups, next, pos, j);
      var y :| y in rest && Matches(s, y, pos, j);
      assert y in branches;
    }
  }

  /** A step inside one copy of `x` that is followed by others. */
  lemma {:induction false} StepRestThen(s: Subject, img: Image, prog: seq<Inst>, x: Node, groups: nat, lo: nat, sl: nat, a: Config, b: Config, min: nat, more: Option<nat>, j: nat)
    requires WellFormed(x, groups) && Codes(img, prog, x, lo, sl)
    requires lo <= a.pc < lo + Len(x) && CanStep(s, img, prog, a, b)
    ensures lo <= b.pc <= lo + Len(x) && b.pos <= |s.text|
    ensures RestAtThen(s, x, lo, b.pc, b.pos, min, more, j) ==> RestThen(s, x, lo, a.pc, a.pos, min, more, j)
    decreases x, 1
  {
    hide CanStep, Codes, Rest;
    StepRest(s, img, prog, x, groups, lo, sl, a, b, b.pos);
    if RestAtThen(s, x, lo, b.pc, b.pos, min, more, j) {
      if b.pc == lo + Len(x) {
        assert Rest(s, x, lo, a.pc, a.pos, b.pos);
      } else {
        var m :| Rest(s, x, lo, b.pc, b.pos, m) && Reps(s, x, min, more, m, j);
        StepRest(s, img, prog, x, groups, lo, sl, a, b, m);
        assert Rest(s, x, lo, a.pc, a.pos, m);
      }
    }
  }

  lemma {:induction false} StepRestReps(s: Subject, img: Image, prog: seq<Inst>, x: Node, groups: nat, min: nat, more: Option<nat>, greedy: bool, lo: nat, sl: nat, a: Config, b: Config, j: nat)
    requires WellFormed(x, groups) && CodesCopies(img, prog, x, min, lo, sl)
    requires CodesTail(img, prog, x, more, greedy, lo + CopiesLen(x, min), sl + CopiesMarks(x, min))
    requires lo <= a.pc < lo + CopiesLen(x, min) + TailLen(x, more) && CanStep(s, img, prog, a, b)
    ensures lo <= b.pc <= lo + CopiesLen(x, min) + TailLen(x, more) && b.pos <= |s.text|
    ensures RestAtReps(s, x, min, more, lo, b.pc, b.pos, j) ==> RestReps(s, x, min, more, lo, a.pc, a.pos, j)
    decreases x, 4, min
  {
    hide CanStep, Codes, Rest, CodesTail, RestTail, TailLen, TailMarks, Len, Marks, WellFormed, RestThen, Reps;
    if min == 0 {
      StepRestTail(s, img, prog, x, groups, more, greedy, lo, sl, a, b, j);
    } else if lo + Len(x) <= a.pc {
      assert CopiesLen(x, min) == Len(x) + CopiesLen(x, min - 1) && CopiesMarks(x, min) == Marks(x) + CopiesMarks(x, min - 1);
      StepRestReps(s, img, prog, x, groups, min - 1, more, greedy, lo + Len(x), sl + Marks(x), a, b, j);
      LaterCopy(s, x, min, more, lo, a, b, j);
    } else {
      StepRestThen(s, img, prog, x, groups, lo, sl, a, b, min - 1, more, j);
      if RestAtReps(s, x, min, more, lo, b.pc, b.pos, j) {
        RestRepsFirst(s, x, groups, min, more, lo, b.pc, b.pos, j);
      }
    }
  }

  /** Past the first copy. */
  lemma LaterCopy(s: Subject, x: Node, min: nat, more: Option<nat>, lo: nat, a: Config, b: Config, j: nat)
    requires min > 0 && lo + Len(x) <= a.pc && lo + Len(x) <= b.pc
    requires RestAtReps(s, x, min - 1, more, lo + Len(x), b.pc, b.pos, j) ==> RestReps(s, x, min - 1, more, lo + Len(x), a.pc, a.pos, j)
    ensures RestAtReps(s, x, min, more, lo, b.pc, b.pos, j) ==> RestReps(s, x, min, more, lo, a.pc, a.pos, j)
  {
    hide Len, TailLen, RestTail, RestThen;
    assert CopiesLen(x, min) == Len(x) + CopiesLen(x, min - 1);
  }

  lemma RestRepsFirst(s: Subject, x: Node, groups: nat, min: nat, more: Option<nat>, lo: nat, pc: nat, pos: nat, j: nat)
    requires WellFormed(x, groups) && min > 0 && lo <= pc <= lo + Len(x) && pos <= |s.text|
    requires RestAtReps(s, x, min, more, lo, pc, pos, j)
    ensures RestAtThen(s, x, lo, pc, pos, min - 1, more, j)
  {
    if pc == lo + Len(x) {
      assert RestAtReps(s, x, min - 1, more, lo + Len(x), pc, pos, j);
      RestEnterReps(s, x, groups, min - 1, more, lo + Len(x), pos, j);
    }
  }

  lemma {:induction false} StepRestTail(s: Subject, img: Image, prog: seq<Inst>, x: Node, groups: nat, more: Option<nat>, greedy: bool, lo: nat, sl: nat, a: Config, b: Config, j: nat)
    requires WellFormed(x, groups) && CodesTail(img, prog, x, more, greedy, lo, sl)
    requires lo <= a.pc < lo + TailLen(x, more) && CanStep(s, img, prog, a, b)
    ensures lo <= b.pc <= lo + TailLen(x, more) && b.pos <= |s.text|
    ensures RestAtTail(s, x, more, lo, b.pc, b.pos, j) ==> RestTail(s, x, more, lo, a.pc, a.pos, j)
    decreases x, 3
  {
    hide CanStep, Codes, Rest;
    if more.Some? {
      StepRestOptions(s, img, prog, x, groups, more.value, greedy, lo, sl, a, b, j);
    } else {
      StepRestStar(s, img, prog, x, groups, greedy, lo, sl, a, b, j);
    }
  }

  lemma {:induction false} StepRestOptions(s: Subject, img: Image, prog: seq<Inst>, x: Node, groups: nat, k: nat, greedy: bool, lo: nat, sl: nat, a: Config, b: Config, j: nat)
    requires WellFormed(x, groups)
    requires CodesOptions(img, prog, x, k, greedy, lo, sl, lo + OptionsLen(x, k))
    requires lo <= a.pc < lo + OptionsLen(x, k) && CanStep(s, img, prog, a, b)
    ensures lo <= b.pc <= lo + OptionsLen(x, k) && b.pos <= |s.text|
    ensures RestAtOptions(s, x, k, lo, b.pc, b.pos, j) ==> RestOptions(s, x, k, lo, a.pc, a.pos, j)
    decreases x, 2, k
  {
    hide CanStep, Codes, Rest, WellFormed, Len, Marks, Nullable, Reps, Matches;
    PlainStep(s, img, prog, a, b);
    var mid := lo + 1 + Len(x);
    if mid <= a.pc {
      assert OptionsLen(x, k) == 1 + Len(x) + OptionsLen(x, k - 1);
      StepRestOptions(s, img, prog, x, groups, k - 1, greedy, mid, sl + Marks(x), a, b, j);
      LaterOption(s, x, k, lo, a, b, j);
    } else if a.pc == lo {
      assert b.pc == lo + 1 || b.pc == lo + OptionsLen(x, k);
      if RestAtOptions(s, x, k, lo, b.pc, b.pos, j) {
        RestOptionsEntry(s, x, groups, k, lo, b.pc, b.pos, j);
      }
    } else {
      StepRestThen(s, img, prog, x, groups, lo + 1, sl, a, b, 0, Some(k - 1), j);
      if RestAtOptions(s, x, k, lo, b.pc, b.pos, j) {
        RestOptionsFirst(s, x, k, lo, b.pc, b.pos, j);
      }
    }
  }

  /** Past the first option. */
  lemma LaterOption(s: Subject, x: Node, k: nat, lo: nat, a: Config, b: Config, j: nat)
    requires k > 0 && lo + 1 + Len(x) <= a.pc && lo + 1 + Len(x) <= b.pc
    requires RestAtOptions(s, x, k - 1, lo + 1 + Len(x), b.pc, b.pos, j) ==> RestOptions(s, x, k - 1, lo + 1 + Len(x), a.pc, a.pos, j)
    ensures RestAtOptions(s, x, k, lo, b.pc, b.pos, j) ==> RestOptions(s, x, k, lo, a.pc, a.pos, j)
  {
    hide Len, RestThen, Reps;
    assert OptionsLen(x, k) == 1 + Len(x) + OptionsLen(x, k - 1);
  }

  lemma RestOptionsFirst(s: Subject, x: Node, k: nat, lo: nat, pc: nat, pos: nat, j: nat)
    requires k > 0 && lo < pc <= lo + 1 + Len(x) && pos <= |s.text|
    requires RestAtOptions(s, x, k, lo, pc, pos, j)
    ensures RestAtThen(s, x, lo + 1, pc, pos, 0, Some(k - 1), j)
  {
    var mid := lo + 1 + Len(x);
    if pc == mid {
      assert RestAtOptions(s, x, k - 1, mid, mid, pos, j);
      RestEnterOptions(s, x, k - 1, mid, pos, j);
    }
  }

  lemma RestOptionsEntry(s: Subject, x: Node, groups: nat, k: nat, lo: nat, pc: nat, pos: nat, j: nat)
    requires WellFormed(x, groups) && k > 0 && pos <= |s.text|
    requires pc == lo + 1 || pc == lo + OptionsLen(x, k)
    requires RestAtOptions(s, x, k, lo, pc, pos, j)
    ensures Reps(s, x, 0, Some(k), pos, j)
  {
    if pc == lo + OptionsLen(x, k) {
      NoReps(s, x, Some(k), pos);
    } else {
      RestOptionsFirst(s, x, k, lo, pc, pos, j);
      RestEnterThen(s, x, groups, lo + 1, pos, 0, Some(k - 1), j);
      var m :| Matches(s, x, pos, m) && Reps(s, x, 0, Some(k - 1), m, j);
      JoinOption(s, x, Some(k), pos, m, j);
    }
  }

  lemma {:induction false} StepRestStar(s: Subject, img: Image, prog: seq<Inst>, x: Node, groups: nat, greedy: bool, top: nat, sl: nat, a: Config, b: Config, j: nat)
    requires WellFormed(x, groups) && CodesTail(img, prog, x, None, greedy, top, sl)
    requires top <= a.pc < top + TailLen(x, None) && CanStep(s, img, prog, a, b)
    ensures top <= b.pc <= top + TailLen(x, None) && b.pos <= |s.text|
    ensures RestAtStar(s, x, top, b.pc, b.pos, j) ==> RestStar(s, x, top, a.pc, a.pos, j)
    decreases x, 2
  {
    hide CanStep, Codes, Rest, WellFormed, Marks, Nullable, Reps, Matches, RestStar, RestAtStar, RestThen, RestAtThen;
    PlainStep(s, img, prog, a, b);
    var body := if Nullable(x) then top + 2 else top + 1;
    if body <= a.pc < body + Len(x) {
      StepRestThen(s, img, prog, x, groups, body, if Nullable(x) then sl + 1 else sl, a, b, 0, None, j);
      StarInside(s, x, top, a, b, j);
    } else {
      StarOverhead(s, x, groups, top, a, b, j);
    }
  }

  /** Inside the body of a loop. */
  lemma StarInside(s: Subject, x: Node, top: nat, a: Config, b: Config, j: nat)
    requires
      var body := if Nullable(x) then top + 2 else top + 1;
      && body <= a.pc < body + Len(x) && body <= b.pc <= body + Len(x)
      && (RestAtThen(s, x, body, b.pc, b.pos, 0, None, j) ==> RestThen(s, x, body, a.pc, a.pos, 0, None, j))
    ensures RestAtStar(s, x, top, b.pc, b.pos, j) ==> RestStar(s, x, top, a.pc, a.pos, j)
  {
    hide Len, Nullable, Reps, RestThen;
  }

  /** A step of one of the loop's own instructions. */
  lemma StarOverhead(s: Subject, x: Node, groups: nat, top: nat, a: Config, b: Config, j: nat)
    requires WellFormed(x, groups) && b.pos == a.pos <= |s.text|
    requires
      var body, end := if Nullable(x) then top + 2 else top + 1, top + TailLen(x, None);
      || (a.pc == top && (b.pc == top + 1 || b.pc == end))
      || (top < a.pc < body && b.pc == body)
      || (body + Len(x) <= a.pc < end && (b.pc == top || a.pc < b.pc < end))
    ensures RestAtStar(s, x, top, b.pc, b.pos, j) ==> RestStar(s, x, top, a.pc, a.pos, j)
  {
    hide WellFormed, Len, Nullable, Reps, Matches, RestThen;
    var body := if Nullable(x) then top + 2 else top + 1;
    if RestAtStar(s, x, top, b.pc, b.pos, j) && a.pc < body {
      RestStarEntry(s, x, groups, top, b.pc, b.pos, j);
    }
  }

  lemma RestStarEntry(s: Subject, x: Node, groups: nat, top: nat, pc: nat, pos: nat, j: nat)
    requires WellFormed(x, groups) && pos <= |s.text|
    requires top < pc <= (if Nullable(x) then top + 2 else top + 1) || pc == top + TailLen(x, None)
    requires RestAtStar(s, x, top, pc, pos, j)
    ensures Reps(s, x, 0, None, pos, j)
    ensures pc != top + TailLen(x, None) ==> MatchThen(s, x, pos, 0, None, j)
  {
    var body := if Nullable(x) then top + 2 else top + 1;
    if pc == top + TailLen(x, None) {
      NoReps(s, x, None, pos);
    } else {
      if pc == body {
        RestEnterThen(s, x, groups, body, pos, 0, None, j);
      }
      var m :| Matches(s, x, pos, m) && Reps(s, x, 0, None, m, j);
      JoinOption(s, x, None, pos, m, j);
    }
  }

  // ----- completeness: settled sets hold every end

  /**
   A refused `Check` whose loop has already been at this position: the back jump
   it would have led to is in the set.
   */
  ghost predicate Spared(prog: seq<Inst>, seen: set<Config>, a: Config) {
    && a.pc + 1 < |prog|
    && prog[a.pc].Check?
    && prog[a.pc + 1].Jmp?
    && Config(prog[a.pc + 1].target, a.pos) in seen
  }

  ghost predicate Settled(s: Subject, img: Image, prog: seq<Inst>, seen: set<Config>, a: Config) {
    Spared(prog, seen, a) || forall b :: CanStep(s, img, prog, a, b) ==> b in seen
  }

  ghost predicate Closed(s: Subject, img: Image, prog: seq<Inst>, seen: set<Config>) {
    forall a :: a in seen ==> Settled(s, img, prog, seen, a)
  }

  lemma FollowStep(s: Subject, img: Image, prog: seq<Inst>, seen: set<Config>, a: Config, b: Config)
    requires Closed(s, img, prog, seen) && a in seen && CanStep(s, img, prog, a, b)
    requires !prog[a.pc].Check?
    ensures b in seen
  {
    assert Settled(s, img, prog, seen, a);
  }

  /** `Split`, `Jmp`, `Save` and `Mark` lead where they say. */
  lemma FollowPlain(s: Subject, img: Image, prog: seq<Inst>, seen: set<Config>, pc: nat, pos: nat)
    requires Closed(s, img, prog, seen) && Config(pc, pos) in seen
    requires pc < |prog| && pos <= |s.text|
    ensures prog[pc].Split? ==> Config(prog[pc].first, pos) in seen && Config(prog[pc].second, pos) in seen
    ensures prog[pc].Jmp? ==> Config(prog[pc].target, pos) in seen
    ensures prog[pc].Save? || prog[pc].Mark? ==> Config(pc + 1, pos) in seen
  {
    var a := Config(pc, pos);
    match prog[pc]
    case Split(first, second) =>
      FollowStep(s, img, prog, seen, a, Config(first, pos));
      FollowStep(s, img, prog, seen, a, Config(second, pos));
    case Jmp(target) => FollowStep(s, img, prog, seen, a, Config(target, pos));
    case Save(_) => FollowStep(s, img, prog, seen, a, Config(pc + 1, pos));
    case Mark(_) => FollowStep(s, img, prog, seen, a, Config(pc + 1, pos));
    case _ =>
  }

  /** The end of a guarded loop body leads back to the loop, whether or not its `Check` was refused. */
  lemma FollowCheck(s: Subject, img: Image, prog: seq<Inst>, seen: set<Config>, pc: nat, pos: nat)
    requires Closed(s, img, prog, seen) && Config(pc, pos) in seen
    requires pc + 1 < |prog| && pos <= |s.text| && prog[pc].Check? && prog[pc + 1].Jmp?
    ensures Config(prog[pc + 1].target, pos) in seen
  {
    var a, b := Config(pc, pos), Config(pc + 1, pos);
    assert Settled(s, img, prog, seen, a);
    if !Spared(prog, seen, a) {
      assert CanStep(s, img, prog, a, b);
      FollowPlain(s, img, prog, seen, pc + 1, pos);
    }
  }

  lemma {:induction false} Complete(s: Subject, img: Image, prog: seq<Inst>, seen: set<Config>, n: Node, lo: nat, sl: nat, i: nat, j: nat)
    requires Codes(img, prog, n, lo, sl) && Closed(s, img, prog, seen)
    requires Config(lo, i) in seen && Matches(s, n, i, j)
    ensures Config(lo + Len(n), j) in seen
    decreases n, 0
  {
    hide CanStep, Settled, Closed, Codes, Len, Matches;
    match n
    case Empty => CompleteEmpty(s, seen, lo, i, j);
    case Group(g, x) => CompleteGroup(s, img, prog, seen, g, x, lo, sl, i, j);
    case Concat(_) => CompleteConcat(s, img, prog, seen, n, lo, sl, i, j);
    case Alt(_) => CompleteChoice(s, img, prog, seen, n, lo, sl, i, j);
    case Repeat(_, _, _, _, _) => CompleteRepeat(s, img, prog, seen, n, lo, sl, i, j);
    case _ => CompleteLeaf(s, img, prog, seen, n, lo, sl, i, j);
  }

  lemma CompleteEmpty(s: Subject, seen: set<Config>, lo: nat, i: nat, j: nat)
    requires Config(lo, i) in seen && Matches(s, Empty, i, j)
    ensures Config(lo + Len(Empty), j) in seen
  {
  }

  lemma {:induction false} CompleteGroup(s: Subject, img: Image, prog: seq<Inst>, seen: set<Config>, g: Option<nat>, x: Node, lo: nat, sl: nat, i: nat, j: nat)
    requires Codes(img, prog, Group(g, x), lo, sl) && Closed(s, img, prog, seen)
    requires Config(lo, i) in seen && Matches(s, Group(g, x), i, j)
    ensures Config(lo + Len(Group(g, x)), j) in seen
    decreases x, 4
  {
    hide CanStep, Settled, Closed, Codes, Len;
    GroupCode(img, prog, g, x, lo, sl);
    if g.None? {
      Complete(s, img, prog, seen, x, lo, sl, i, j);
    } else {
      FollowPlain(s, img, prog, seen, lo, i);
      Complete(s, img, prog, seen, x, lo + 1, sl, i, j);
      FollowPlain(s, img, prog, seen, lo + 1 + Len(x), j);
    }
  }

  lemma {:induction false} CompleteConcat(s: Subject, img: Image, prog: seq<Inst>, seen: set<Config>, n: Node, lo: nat, sl: nat, i: nat, j: nat)
    requires n.Concat? && Codes(img, prog, n, lo, sl) && Closed(s, img, prog, seen)
    requires Config(lo, i) in seen && Matches(s, n, i, j)
    ensures Config(lo + Len(n), j) in seen
    decreases n.items, 1
  {
    hide CanStep, Settled, Closed;
    CompleteSeq(s, img, prog, seen, n.items, lo, sl, i, j);
  }

  lemma {:induction false} CompleteChoice(s: Subject, img: Image, prog: seq<Inst>, seen: set<Config>, n: Node, lo: nat, sl: nat, i: nat, j: nat)
    requires n.Alt? && Codes(img, prog, n, lo, sl) && Closed(s, img, prog, seen)
    requires Config(lo, i) in seen && Matches(s, n, i, j)
    ensures Config(lo + Len(n), j) in seen
    decreases n.branches, 1
  {
    hide CanStep, Settled, Closed;
    var b :| b in n.branches && Matches(s, b, i, j);
    CompleteAlt(s, img, prog, seen, n.branches, lo, sl, lo + AltLen(n.branches), b, i, j);
  }

  lemma {:induction false} CompleteRepeat(s: Subject, img: Image, prog: seq<Inst>, seen: set<Config>, n: Node, lo: nat, sl: nat, i: nat, j: nat)
    requires n.Repeat? && Codes(img, prog, n, lo, sl) && Closed(s, img, prog, seen)
    requires Config(lo, i) in seen && Matches(s, n, i, j)
    ensures Config(lo + Len(n), j) in seen
    decreases n.inner, 4
  {
    hide CanStep, Settled, Closed, Codes, Len, CodesCopies, CodesTail;
    RepeatCode(img, prog, n, lo, sl);
    CompleteReps(s, img, prog, seen, n.inner, n.min, More(n.min, n.max), n.greedy, lo, sl, i, j);
  }

  lemma CompleteLeaf(s: Subject, img: Image, prog: seq<Inst>, seen: set<Config>, n: Node, lo: nat, sl: nat, i: nat, j: nat)
    requires IsLeaf(n) && Codes(img, prog, n, lo, sl) && Closed(s, img, prog, seen)
    requires Config(lo, i) in seen && Matches(s, n, i, j)
    ensures Config(lo + Len(n), j) in seen
  {
    FollowStep(s, img, prog, seen, Config(lo, i), Config(lo + 1, j));
  }

  lemma {:induction false} CompleteSeq(s: Subject, img: Image, prog: seq<Inst>, seen: set<Config>, items: seq<Node>, lo: nat, sl: nat, i: nat, j: nat)
    requires CodesSeq(img, prog, items, lo, sl) && Closed(s, img, prog, seen)
    requires Config(lo, i) in seen && MatchesSeq(s, items, i, j)
    ensures Config(lo + SeqLen(items), j) in seen
    decreases items, 0
  {
    hide CanStep, Settled, Codes, Matches;
    if items != [] {
      var m := SplitSeq(s, items, i, j);
      Complete(s, img, prog, seen, items[0], lo, sl, i, m);
      CompleteSeq(s, img, prog, seen, items[1..], lo + Len(items[0]), sl + Marks(items[0]), m, j);
    }
  }

  lemma {:induction false} CompleteAlt(s: Subject, img: Image, prog: seq<Inst>, seen: set<Config>, branches: seq<Node>, lo: nat, sl: nat, end: nat, b: Node, i: nat, j: nat)
    requires CodesAlt(img, prog, branches, lo, sl, end) && Closed(s, img, prog, seen)
    requires end == lo + AltLen(branches)
    requires Config(lo, i) in seen && b in branches && Matches(s, b, i, j) && i <= j <= |s.text|
    ensures Config(end, j) in seen
    decreases branches, 0
  {
    hide CanStep, Settled, Codes, Matches;
    if |branches| == 1 {
      Complete(s, img, prog, seen, b, lo, sl, i, j);
    } else {
      FollowPlain(s, img, prog, seen, lo, i);
      if b == branches[0] {
        Complete(s, img, prog, seen, b, lo + 1, sl, i, j);
        FollowPlain(s, img, prog, seen, lo + 1 + Len(b), j);
      } else {
        CompleteAlt(s, img, prog, seen, branches[1..], lo + Len(branches[0]) + 2, sl + Marks(branches[0]), end, b, i, j);
      }
    }
  }

  lemma {:induction false} CompleteReps(s: Subject, img: Image, prog: seq<Inst>, seen: set<Config>, x: Node, min: nat, more: Option<nat>, greedy: bool, lo: nat, sl: nat, i: nat, j: nat)
    requires CodesCopies(img, prog, x, min, lo, sl) && Closed(s, img, prog, seen)
    requires CodesTail(img, prog, x, more, greedy, lo + CopiesLen(x, min), sl + CopiesMarks(x, min))
    requires Config(lo, i) in seen && Reps(s, x, min, more, i, j)
    ensures Config(lo + CopiesLen(x, min) + TailLen(x, more), j) in seen
    decreases x, 3, min
  {
    hide CanStep, Settled, Codes, Matches, CodesTail, Reps;
    if min > 0 {
      var m := SplitReps(s, x, min, more, i, j);
      Complete(s, img, prog, seen, x, lo, sl, i, m);
      assert CopiesLen(x, min) == Len(x) + CopiesLen(x, min - 1) && CopiesMarks(x, min) == Marks(x) + CopiesMarks(x, min - 1);
      CompleteReps(s, img, prog, seen, x, min - 1, more, greedy, lo + Len(x), sl + Marks(x), m, j);
    } else {
      CompleteTail(s, img, prog, seen, x, more, greedy, lo, sl, i, j);
    }
  }

  lemma {:induction false} CompleteTail(s: Subject, img: Image, prog: seq<Inst>, seen: set<Config>, x: Node, more: Option<nat>, greedy: bool, lo: nat, sl: nat, i: nat, j: nat)
    requires CodesTail(img, prog, x, more, greedy, lo, sl) && Closed(s, img, prog, seen)
    requires Config(lo, i) in seen && Reps(s, x, 0, more, i, j)
    ensures Config(lo + TailLen(x, more), j) in seen
    decreases x, 2, 0
  {
    hide CanStep, Settled, Codes, Matches;
    var k :| 0 <= k && (more.Some? ==> k <= more.value) && Copies(s, x, k, i, j);
    CopiesBounds(s, x, k, i, j);
    if more.Some? {
      CompleteOptions(s, img, prog, seen, x, more.value, greedy, lo, sl, lo + OptionsLen(x, more.value), k, i, j);
    } else {
      CompleteStar(s, img, prog, seen, x, greedy, lo, sl, k, i, j);
    }
  }

  lemma {:induction false} CompleteOptions(s: Subject, img: Image, prog: seq<Inst>, seen: set<Config>, x: Node, opt: nat, greedy: bool, lo: nat, sl: nat, end: nat, k: nat, i: nat, j: nat)
    requires CodesOptions(img, prog, x, opt, greedy, lo, sl, end) && Closed(s, img, prog, seen)
    requires end == lo + OptionsLen(x, opt)
    requires Config(lo, i) in seen && k <= opt && Copies(s, x, k, i, j) && i <= |s.text|
    ensures Config(end, j) in seen
    decreases x, 1, opt, 0
  {
    hide CanStep, Settled, Codes, Matches;
    if opt > 0 {
      FollowPlain(s, img, prog, seen, lo, i);
      if k > 0 {
        var m := SplitCopies(s, x, k, i, j);
        CopiesBounds(s, x, k - 1, m, j);
        Complete(s, img, prog, seen, x, lo + 1, sl, i, m);
        CompleteOptions(s, img, prog, seen, x, opt - 1, greedy, lo + 1 + Len(x), sl + Marks(x), end, k - 1, m, j);
      }
    }
  }

  lemma {:induction false} CompleteStar(s: Subject, img: Image, prog: seq<Inst>, seen: set<Config>, x: Node, greedy: bool, top: nat, sl: nat, k: nat, i: nat, j: nat)
    requires CodesTail(img, prog, x, None, greedy, top, sl) && Closed(s, img, prog, seen)
    requires Config(top, i) in seen && Copies(s, x, k, i, j) && i <= |s.text|
    ensures Config(top + TailLen(x, None), j) in seen
    decreases x, 1, k, 0
  {
    hide CanStep, Settled, Codes, Matches;
    FollowPlain(s, img, prog, seen, top, i);
    if k > 0 {
      var m := SplitCopies(s, x, k, i, j);
      CopiesBounds(s, x, k - 1, m, j);
      if Nullable(x) {
        FollowPlain(s, img, prog, seen, top + 1, i);
        Complete(s, img, prog, seen, x, top + 2, sl + 1, i, m);
        FollowCheck(s, img, prog, seen, top + 2 + Len(x), m);
      } else {
        Complete(s, img, prog, seen, x, top + 1, sl, i, m);
        FollowPlain(s, img, prog, seen, top + 1 + Len(x), m);
      }
      CompleteStar(s, img, prog, seen, x, greedy, top, sl, k - 1, m, j);
    }
  }
}
