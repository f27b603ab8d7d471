/**
 The backtracking bytecode: its instructions, where the compiler puts the code
 of each tree (`Len`, `Marks`, `Codes`), and the well-formedness every compiled
 program has (`Tidy`).
 */
module AreProgram {
  import opened Wrappers
  import opened AreSyntax

  datatype Inst =
    | Char(c: nat)
    | Any
    | Set(index: nat)
    | Split(first: nat, second: nat)
    | Jmp(target: nat)
    | Save(slot: nat)
    | Zero(a: Assertion)
    | Ahead(negated: bool, sub: nat)
    | Mark(slot: nat)
    | Check(slot: nat)
    | Match

  /**
   What the programs of one engine share: the character sets, and for each
   look-ahead sub-program the tree it was compiled from and its first loop slot.
   */
  datatype Image = Image(sets: seq<CharSet>, looks: seq<Node>, bases: seq<nat>)

  ghost predicate Extends(a: Image, b: Image) {
    a.sets <= b.sets && a.looks <= b.looks && a.bases <= b.bases
  }

  // ----- layout

  /** The number of instructions a tree compiles to. */
  function Len(n: Node): nat
    decreases n, 0
  {
    match n
    case Empty => 0
    case Literal(_) => 1
    case AnyChar => 1
    case OneOf(_) => 1
    case Assert(_) => 1
    case Group(g, x) => if g.Some? then Len(x) + 2 else Len(x)
    case Look(_, _) => 1
    case Concat(items) => SeqLen(items)
    case Alt(branches) => AltLen(branches)
    case Repeat(x, min, max, _, _) => CopiesLen(x, min) + TailLen(x, More(min, max))
  }

  function SeqLen(items: seq<Node>): nat
    decreases items, 0
  {
    if items == [] then 0 else Len(items[0]) + SeqLen(items[1..])
  }

  /** Every branch but the last is followed by a `Jmp` and preceded by a `Split`. */
  function AltLen(branches: seq<Node>): nat
    decreases branches, 0
  {
    if branches == [] then 0
    else if |branches| == 1 then Len(branches[0])
    else Len(branches[0]) + 2 + AltLen(branches[1..])
  }

  function CopiesLen(x: Node, k: nat): nat
    decreases x, 1, k
  {
    if k == 0 then 0 else Len(x) + CopiesLen(x, k - 1)
  }

  function OptionsLen(x: Node, k: nat): nat
    decreases x, 1, k
  {
    if k == 0 then 0 else Len(x) + 1 + OptionsLen(x, k - 1)
  }

  /** The code of a quantifier past its mandatory copies. */
  function TailLen(x: Node, more: Option<nat>): nat
    decreases x, 2
  {
    if more.Some? then OptionsLen(x, more.value)
    else if Nullable(x) then Len(x) + 4
    else Len(x) + 2
  }

  /** The number of loop slots a tree uses. */
  function Marks(n: Node): nat
    decreases n, 0
  {
    match n
    case Empty => 0
    case Literal(_) => 0
    case AnyChar => 0
    case OneOf(_) => 0
    case Assert(_) => 0
    case Group(_, x) => Marks(x)
    case Look(_, x) => Marks(x)
    case Concat(items) => SeqMarks(items)
    case Alt(branches) => SeqMarks(branches)
    case Repeat(x, min, max, _, _) => CopiesMarks(x, min) + TailMarks(x, More(min, max))
  }

  function SeqMarks(items: seq<Node>): nat
    decreases items, 0
  {
    if items == [] then 0 else Marks(items[0]) + SeqMarks(items[1..])
  }

  function CopiesMarks(x: Node, k: nat): nat
    decreases x, 1, k
  {
    if k == 0 then 0 else Marks(x) + CopiesMarks(x, k - 1)
  }

  function TailMarks(x: Node, more: Option<nat>): nat
    decreases x, 2
  {
    if more.Some? then CopiesMarks(x, more.value)
    else if Nullable(x) then Marks(x) + 1
    else Marks(x)
  }

  // ----- the code of a tree

  /**
   `prog` holds the code of `n` at `lo`, its loops using the slots from `sl` on.
   */
  ghost predicate Codes(img: Image, prog: seq<Inst>, n: Node, lo: nat, sl: nat)
    decreases n, 0
  {
    lo + Len(n) <= |prog| &&
    match n
    case Empty => true
    case Literal(c) => prog[lo] == Char(c)
    case AnyChar => prog[lo] == Any
    case OneOf(cs) => prog[lo].Set? && prog[lo].index < |img.sets| && img.sets[prog[lo].index] == cs
    case Assert(a) => prog[lo] == Zero(a)
    case Group(g, x) =>
      if g.None? then Codes(img, prog, x, lo, sl)
      else
        && prog[lo] == Save(2 * g.value)
        && Codes(img, prog, x, lo + 1, sl)
        && prog[lo + 1 + Len(x)] == Save(2 * g.value + 1)
    case Look(negated, x) =>
      && prog[lo].Ahead? && prog[lo].negated == negated
      && prog[lo].sub < |img.looks| && img.looks[prog[lo].sub] == x
      && prog[lo].sub < |img.bases| && img.bases[prog[lo].sub] == sl
    case Concat(items) => CodesSeq(img, prog, items, lo, sl)
    case Alt(branches) => CodesAlt(img, prog, branches, lo, sl, lo + AltLen(branches))
    case Repeat(x, min, max, greedy, _) =>
      && CodesCopies(img, prog, x, min, lo, sl)
      && CodesTail(img, prog, x, More(min, max), greedy, lo + CopiesLen(x, min), sl + CopiesMarks(x, min))
  }

  ghost predicate CodesSeq(img: Image, prog: seq<Inst>, items: seq<Node>, lo: nat, sl: nat)
    decreases items, 0
  {
    if items == [] then lo <= |prog|
    else
      && Codes(img, prog, items[0], lo, sl)
      && CodesSeq(img, prog, items[1..], lo + Len(items[0]), sl + Marks(items[0]))
  }

  ghost predicate CodesAlt(img: Image, prog: seq<Inst>, branches: seq<Node>, lo: nat, sl: nat, end: nat)
    decreases branches, 0
  {
    if branches == [] then lo <= |prog|
    else if |branches| == 1 then Codes(img, prog, branches[0], lo, sl)
    else
      var next := lo + Len(branches[0]) + 2;
      && next <= |prog|
      && prog[lo] == Split(lo + 1, next)
      && Codes(img, prog, branches[0], lo + 1, sl)
      && prog[next - 1] == Jmp(end)
      && CodesAlt(img, prog, branches[1..], next, sl + Marks(branches[0]), end)
  }

  ghost predicate CodesCopies(img: Image, prog: seq<Inst>, x: Node, k: nat, lo: nat, sl: nat)
    decreases x, 1, k
  {
    if k == 0 then lo <= |prog|
    else
      && Codes(img, prog, x, lo, sl)
      && CodesCopies(img, prog, x, k - 1, lo + Len(x), sl + Marks(x))
  }

  /** `k` optional copies, each skipping to `end`. */
  ghost predicate CodesOptions(img: Image, prog: seq<Inst>, x: Node, k: nat, greedy: bool, lo: nat, sl: nat, end: nat)
    decreases x, 1, k
  {
    if k == 0 then lo <= |prog|
    else
      && lo < |prog|
      && prog[lo] == Choose(greedy, lo + 1, end)
      && Codes(img, prog, x, lo + 1, sl)
      && CodesOptions(img, prog, x, k - 1, greedy, lo + 1 + Len(x), sl + Marks(x), end)
  }

  ghost predicate CodesTail(img: Image, prog: seq<Inst>, x: Node, more: Option<nat>, greedy: bool, top: nat, sl: nat)
    decreases x, 2
  {
    var end := top + TailLen(x, more);
    && end <= |prog|
    && if more.Some? then CodesOptions(img, prog, x, more.value, greedy, top, sl, end)
       else if Nullable(x) then
         && prog[top] == Choose(greedy, top + 1, end)
         && prog[top + 1] == Mark(sl)
         && Codes(img, prog, x, top + 2, sl + 1)
         && prog[end - 2] == Check(sl)
         && prog[end - 1] == Jmp(top)
       else
         && prog[top] == Choose(greedy, top + 1, end)
         && Codes(img, prog, x, top + 1, sl)
         && prog[end - 1] == Jmp(top)
  }

  /** A `Split` that prefers to enter the body when greedy, to leave when not. */
  function Choose(greedy: bool, body: nat, end: nat): Inst {
    if greedy then Split(body, end) else Split(end, body)
  }

  lemma GroupCode(img: Image, prog: seq<Inst>, g: Option<nat>, x: Node, lo: nat, sl: nat)
    requires Codes(img, prog, Group(g, x), lo, sl)
    ensures Marks(Group(g, x)) == Marks(x)
    ensures g.None? ==> Len(Group(g, x)) == Len(x) && Codes(img, prog, x, lo, sl)
    ensures g.Some? ==>
      && Len(Group(g, x)) == Len(x) + 2
      && lo + Len(x) + 2 <= |prog|
      && prog[lo] == Save(2 * g.value)
      && Codes(img, prog, x, lo + 1, sl)
      && prog[lo + 1 + Len(x)] == Save(2 * g.value + 1)
  {
  }

  lemma RepeatCode(img: Image, prog: seq<Inst>, n: Node, lo: nat, sl: nat)
    requires n.Repeat? && Codes(img, prog, n, lo, sl)
    ensures Len(n) == CopiesLen(n.inner, n.min) + TailLen(n.inner, More(n.min, n.max))
    ensures Marks(n) == CopiesMarks(n.inner, n.min) + TailMarks(n.inner, More(n.min, n.max))
    ensures CodesCopies(img, prog, n.inner, n.min, lo, sl)
    ensures CodesTail(img, prog, n.inner, More(n.min, n.max), n.greedy, lo + CopiesLen(n.inner, n.min), sl + CopiesMarks(n.inner, n.min))
  {
  }

  // ----- code depends only on its own addresses, and survives a larger image

  ghost predicate Same(img: Image, prog: seq<Inst>, img': Image, prog': seq<Inst>, lo: nat, hi: nat) {
    && Extends(img, img')
    && lo <= hi <= |prog| && hi <= |prog'|
    && forall k | lo <= k < hi :: prog'[k] == prog[k]
  }

  lemma {:induction false} CodesFrame(img: Image, prog: seq<Inst>, img': Image, prog': seq<Inst>, n: Node, lo: nat, sl: nat)
    requires Codes(img, prog, n, lo, sl)
    requires Same(img, prog, img', prog', lo, lo + Len(n))
    ensures Codes(img', prog', n, lo, sl)
    decreases n, 0
  {
    hide *;
    match n
    case Group(g, x) =>
      GroupFrame(img, prog, img', prog', g, x, lo, sl);
      CodesFrame(img, prog, img', prog', x, if g.None? then lo else lo + 1, sl);
    case Concat(items) =>
      ConcatFrame(img, prog, img', prog', items, lo, sl);
      CodesSeqFrame(img, prog, img', prog', items, lo, sl);
    case Alt(branches) =>
      AltFrame(img, prog, img', prog', branches, lo, sl);
      CodesAltFrame(img, prog, img', prog', branches, lo, sl, lo + AltLen(branches));
    case Repeat(x, min, max, greedy, _) =>
      RepeatFrame(img, prog, img', prog', n, lo, sl);
      CodesRepsFrame(img, prog, img', prog', x, min, More(min, max), greedy, lo, sl);
    case _ => LeafFrame(img, prog, img', prog', n, lo, sl);
  }

  lemma GroupFrame(img: Image, prog: seq<Inst>, img': Image, prog': seq<Inst>, g: Option<nat>, x: Node, lo: nat, sl: nat)
    requires Codes(img, prog, Group(g, x), lo, sl) && Same(img, prog, img', prog', lo, lo + Len(Group(g, x)))
    ensures
      var at := if g.None? then lo else lo + 1;
      && Codes(img, prog, x, at, sl) && Same(img, prog, img', prog', at, at + Len(x))
      && (Codes(img', prog', x, at, sl) ==> Codes(img', prog', Group(g, x), lo, sl))
  {
    hide CodesSeq, CodesAlt, CodesTail, CodesCopies, Marks;
  }

  lemma ConcatFrame(img: Image, prog: seq<Inst>, img': Image, prog': seq<Inst>, items: seq<Node>, lo: nat, sl: nat)
    requires Codes(img, prog, Concat(items), lo, sl) && Same(img, prog, img', prog', lo, lo + Len(Concat(items)))
    ensures CodesSeq(img, prog, items, lo, sl) && Same(img, prog, img', prog', lo, lo + SeqLen(items))
    ensures CodesSeq(img', prog', items, lo, sl) ==> Codes(img', prog', Concat(items), lo, sl)
  {
    hide CodesSeq, CodesAlt, CodesTail, CodesCopies, Marks, SeqLen;
  }

  lemma AltFrame(img: Image, prog: seq<Inst>, img': Image, prog': seq<Inst>, branches: seq<Node>, lo: nat, sl: nat)
    requires Codes(img, prog, Alt(branches), lo, sl) && Same(img, prog, img', prog', lo, lo + Len(Alt(branches)))
    ensures
      var end := lo + AltLen(branches);
      && CodesAlt(img, prog, branches, lo, sl, end) && Same(img, prog, img', prog', lo, end)
      && (CodesAlt(img', prog', branches, lo, sl, end) ==> Codes(img', prog', Alt(branches), lo, sl))
  {
    hide CodesSeq, CodesAlt, CodesTail, CodesCopies, Marks, AltLen;
  }

  lemma RepeatFrame(img: Image, prog: seq<Inst>, img': Image, prog': seq<Inst>, n: Node, lo: nat, sl: nat)
    requires n.Repeat? && Codes(img, prog, n, lo, sl) && Same(img, prog, img', prog', lo, lo + Len(n))
    ensures
      var (x, more) := (n.inner, More(n.min, n.max));
      var (mid, msl) := (lo + CopiesLen(x, n.min), sl + CopiesMarks(x, n.min));
      && CodesCopies(img, prog, x, n.min, lo, sl) && CodesTail(img, prog, x, more, n.greedy, mid, msl)
      && Same(img, prog, img', prog', lo, mid + TailLen(x, more))
      && (CodesCopies(img', prog', x, n.min, lo, sl) && CodesTail(img', prog', x, more, n.greedy, mid, msl) ==>
           Codes(img', prog', n, lo, sl))
  {
    hide CodesSeq, CodesAlt, CodesTail, CodesCopies, CopiesLen, CopiesMarks, TailLen;
  }

  lemma LeafFrame(img: Image, prog: seq<Inst>, img': Image, prog': seq<Inst>, n: Node, lo: nat, sl: nat)
    requires !n.Group? && !n.Concat? && !n.Alt? && !n.Repeat?
    requires Codes(img, prog, n, lo, sl) && Same(img, prog, img', prog', lo, lo + Len(n))
    ensures Codes(img', prog', n, lo, sl)
  {
  }

  lemma {:induction false} CodesRepsFrame(img: Image, prog: seq<Inst>, img': Image, prog': seq<Inst>, x: Node, min: nat, more: Option<nat>, greedy: bool, lo: nat, sl: nat)
    requires CodesCopies(img, prog, x, min, lo, sl)
    requires CodesTail(img, prog, x, more, greedy, lo + CopiesLen(x, min), sl + CopiesMarks(x, min))
    requires Same(img, prog, img', prog', lo, lo + CopiesLen(x, min) + TailLen(x, more))
    ensures CodesCopies(img', prog', x, min, lo, sl)
    ensures CodesTail(img', prog', x, more, greedy, lo + CopiesLen(x, min), sl + CopiesMarks(x, min))
    decreases x, 3
  {
    hide Codes;
    var mid := lo + CopiesLen(x, min);
    assert Same(img, prog, img', prog', lo, mid) && Same(img, prog, img', prog', mid, mid + TailLen(x, more));
    CodesCopiesFrame(img, prog, img', prog', x, min, lo, sl);
    CodesTailFrame(img, prog, img', prog', x, more, greedy, mid, sl + CopiesMarks(x, min));
  }

  lemma {:induction false} CodesSeqFrame(img: Image, prog: seq<Inst>, img': Image, prog': seq<Inst>, items: seq<Node>, lo: nat, sl: nat)
    requires CodesSeq(img, prog, items, lo, sl)
    requires Same(img, prog, img', prog', lo, lo + SeqLen(items))
    ensures CodesSeq(img', prog', items, lo, sl)
    decreases items, 0
  {
    hide Codes;
    if items != [] {
      CodesFrame(img, prog, img', prog', items[0], lo, sl);
      CodesSeqFrame(img, prog, img', prog', items[1..], lo + Len(items[0]), sl + Marks(items[0]));
    }
  }

  lemma {:induction false} CodesAltFrame(img: Image, prog: seq<Inst>, img': Image, prog': seq<Inst>, branches: seq<Node>, lo: nat, sl: nat, end: nat)
    requires CodesAlt(img, prog, branches, lo, sl, end)
    requires Same(img, prog, img', prog', lo, lo + AltLen(branches))
    ensures CodesAlt(img', prog', branches, lo, sl, end)
    decreases branches, 0
  {
    hide Codes;
    if |branches| == 1 {
      CodesFrame(img, prog, img', prog', branches[0], lo, sl);
    } else if |branches| > 1 {
      CodesFrame(img, prog, img', prog', branches[0], lo + 1, sl);
      CodesAltFrame(img, prog, img', prog', branches[1..], lo + Len(branches[0]) + 2, sl + Marks(branches[0]), end);
    }
  }

  lemma {:induction false} CodesCopiesFrame(img: Image, prog: seq<Inst>, img': Image, prog': seq<Inst>, x: Node, k: nat, lo: nat, sl: nat)
    requires CodesCopies(img, prog, x, k, lo, sl)
    requires Same(img, prog, img', prog', lo, lo + CopiesLen(x, k))
    ensures CodesCopies(img', prog', x, k, lo, sl)
    decreases x, 1, k
  {
    hide Codes;
    if k > 0 {
      CodesFrame(img, prog, img', prog', x, lo, sl);
      CodesCopiesFrame(img, prog, img', prog', x, k - 1, lo + Len(x), sl + Marks(x));
    }
  }

  lemma {:induction false} CodesOptionsFrame(img: Image, prog: seq<Inst>, img': Image, prog': seq<Inst>, x: Node, k: nat, greedy: bool, lo: nat, sl: nat, end: nat)
    requires CodesOptions(img, prog, x, k, greedy, lo, sl, end)
    requires Same(img, prog, img', prog', lo, lo + OptionsLen(x, k))
    ensures CodesOptions(img', prog', x, k, greedy, lo, sl, end)
    decreases x, 1, k
  {
    hide Codes, Len, Marks;
    if k > 0 {
      CodesFrame(img, prog, img', prog', x, lo + 1, sl);
      CodesOptionsFrame(img, prog, img', prog', x, k - 1, greedy, lo + 1 + Len(x), sl + Marks(x), end);
    }
  }

  lemma {:induction false} CodesTailFrame(img: Image, prog: seq<Inst>, img': Image, prog': seq<Inst>, x: Node, more: Option<nat>, greedy: bool, top: nat, sl: nat)
    requires CodesTail(img, prog, x, more, greedy, top, sl)
    requires Same(img, prog, img', prog', top, top + TailLen(x, more))
    ensures CodesTail(img', prog', x, more, greedy, top, sl)
    decreases x, 2
  {
    hide Codes, Len, Marks, Nullable, CodesOptions;
    if more.Some? {
      CodesOptionsFrame(img, prog, img', prog', x, more.value, greedy, top, sl, top + TailLen(x, more));
    } else {
      CodesFrame(img, prog, img', prog', x, if Nullable(x) then top + 2 else top + 1, if Nullable(x) then sl + 1 else sl);
    }
  }
}
