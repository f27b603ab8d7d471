/**
 What the search relies on in a compiled program, and the proof that every
 program the compiler makes has it.

 The loops of a program use slots no other loop and no look-ahead sub-program
 uses; a `Mark` is reached from the `Split` just before it and from nowhere else;
 and the `Check` of a slot is followed by the jump back to the `Split` before
 that slot's `Mark`, of which there is one.
 */
module AreTidy {
  import opened Wrappers
  import opened AreSyntax
  import opened AreProgram

  /** The addresses an instruction can lead to. */
  function Targets(prog: seq<Inst>, pc: nat): set<nat>
    requires pc < |prog|
  {
    match prog[pc]
    case Split(first, second) => {first, second}
    case Jmp(target) => {target}
    case Match => {}
    case _ => {pc + 1}
  }

  ghost predicate Sane(img: Image, inst: Inst, base: nat, sl: nat, sh: nat) {
    match inst
    case Set(k) => k < |img.sets|
    case Ahead(_, k) =>
      k < |img.looks| && k < |img.bases| && sl <= img.bases[k] && img.bases[k] + Marks(img.looks[k]) <= sh
    case Save(k) => k < base
    case Mark(k) => sl <= k < sh
    case Check(k) => sl <= k < sh
    case Match => false
    case _ => true
  }

  /** Control stays inside, and a `Mark` is entered from its own `Split` alone. */
  ghost predicate Enters(prog: seq<Inst>, lo: nat, hi: nat, pc: nat, t: nat)
    requires pc < |prog| && hi <= |prog|
  {
    lo <= t <= hi && (t < hi && prog[t].Mark? ==> t == pc + 1 && prog[pc].Split?)
  }

  ghost predicate Paired(prog: seq<Inst>, lo: nat, hi: nat, p: nat, c: nat)
    requires p < |prog| && c < |prog|
  {
    && (prog[p].Mark? && prog[c] == prog[p] ==> p == c)
    && (prog[p].Mark? && prog[c].Check? && prog[p].slot == prog[c].slot ==>
         c + 1 < hi <= |prog| && lo < p && prog[c + 1] == Jmp(p - 1))
  }

  ghost predicate Apart(img: Image, prog: seq<Inst>, p: nat, k: nat)
    requires p < |prog| && k < |prog|
  {
    prog[p].Mark? && prog[k].Ahead? && prog[k].sub < |img.looks| && prog[k].sub < |img.bases| ==>
      var sub := prog[k].sub;
      prog[p].slot < img.bases[sub] || img.bases[sub] + Marks(img.looks[sub]) <= prog[p].slot
  }

  ghost predicate Tidy(img: Image, prog: seq<Inst>, lo: nat, hi: nat, base: nat, sl: nat, sh: nat) {
    && lo <= hi <= |prog| && base <= sl <= sh
    && (forall pc | lo <= pc < hi :: Sane(img, prog[pc], base, sl, sh))
    && (forall pc, t | lo <= pc < hi && t in Targets(prog, pc) :: Enters(prog, lo, hi, pc, t))
    && (lo < hi ==> !prog[lo].Mark?)
    && (forall p, c | lo <= p < hi && lo <= c < hi :: Paired(prog, lo, hi, p, c))
    && (forall p, k | lo <= p < hi && lo <= k < hi :: Apart(img, prog, p, k))
  }

  /** An instruction around tidy pieces: no loop bookkeeping, targets inside, none a `Mark`. */
  ghost predicate Glue(prog: seq<Inst>, lo: nat, hi: nat, base: nat, pc: nat)
    requires pc < |prog| && hi <= |prog|
  {
    && (prog[pc].Split? || prog[pc].Jmp? || (prog[pc].Save? && prog[pc].slot < base))
    && forall t | t in Targets(prog, pc) :: lo <= t <= hi && (t < hi ==> !prog[t].Mark?)
  }

  /**
   Two tidy pieces, the second reaching the end, with glue before and between
   them, make a tidy whole.
   */
  lemma TidyGlue(img: Image, prog: seq<Inst>, lo: nat, a0: nat, a1: nat, b0: nat, hi: nat, base: nat, sl: nat, sm: nat, sh: nat)
    requires lo <= a0 <= a1 <= b0 <= hi <= |prog|
    requires Tidy(img, prog, a0, a1, base, sl, sm) && Tidy(img, prog, b0, hi, base, sm, sh)
    requires forall pc | lo <= pc < a0 || a1 <= pc < b0 :: Glue(prog, lo, hi, base, pc)
    requires a1 < hi ==> !prog[a1].Mark?
    ensures Tidy(img, prog, lo, hi, base, sl, sh)
  {
    forall pc | lo <= pc < hi ensures Sane(img, prog[pc], base, sl, sh) {
      if lo <= pc < a0 || a1 <= pc < b0 { assert Glue(prog, lo, hi, base, pc); }
    }
    forall pc, t | lo <= pc < hi && t in Targets(prog, pc) ensures Enters(prog, lo, hi, pc, t) {
      if lo <= pc < a0 || a1 <= pc < b0 {
        assert Glue(prog, lo, hi, base, pc);
      } else if pc < a1 {
        assert Enters(prog, a0, a1, pc, t);
      } else {
        assert Enters(prog, b0, hi, pc, t);
      }
    }
    forall p, c | lo <= p < hi && lo <= c < hi ensures Paired(prog, lo, hi, p, c) && Apart(img, prog, p, c) {
      if lo <= p < a0 || a1 <= p < b0 {
        assert Glue(prog, lo, hi, base, p);
      } else if lo <= c < a0 || a1 <= c < b0 {
        assert Glue(prog, lo, hi, base, c);
      } else {
        SlotsApart(img, prog, a0, a1, b0, hi, base, sl, sm, sh, p, c);
      }
    }
    if lo < hi && lo < a0 { assert Glue(prog, lo, hi, base, lo); }
  }

  lemma SlotsApart(img: Image, prog: seq<Inst>, a0: nat, a1: nat, b0: nat, b1: nat, base: nat, sl: nat, sm: nat, sh: nat, p: nat, c: nat)
    requires Tidy(img, prog, a0, a1, base, sl, sm) && Tidy(img, prog, b0, b1, base, sm, sh)
    requires a1 <= b0
    requires a0 <= p < a1 || b0 <= p < b1
    requires a0 <= c < a1 || b0 <= c < b1
    ensures Paired(prog, a0, b1, p, c) && Apart(img, prog, p, c)
  {
    assert Sane(img, prog[p], base, if p < a1 then sl else sm, if p < a1 then sm else sh);
    assert Sane(img, prog[c], base, if c < a1 then sl else sm, if c < a1 then sm else sh);
    if p < a1 && c < a1 {
      assert Paired(prog, a0, a1, p, c) && Apart(img, prog, p, c);
    } else if b0 <= p && b0 <= c {
      assert Paired(prog, b0, b1, p, c) && Apart(img, prog, p, c);
    }
  }

  lemma TidyNothing(img: Image, prog: seq<Inst>, at: nat, base: nat, sl: nat)
    requires at <= |prog| && base <= sl
    ensures Tidy(img, prog, at, at, base, sl, sl)
  {
  }

  /** A guarded loop around a tidy body. */
  lemma TidyLoop(img: Image, prog: seq<Inst>, top: nat, end: nat, base: nat, sl: nat, sh: nat)
    requires top + 4 <= end <= |prog| && base <= sl
    requires Tidy(img, prog, top + 2, end - 2, base, sl + 1, sh)
    requires prog[top] == Split(top + 1, end) || prog[top] == Split(end, top + 1)
    requires prog[top + 1] == Mark(sl) && prog[end - 2] == Check(sl) && prog[end - 1] == Jmp(top)
    ensures Tidy(img, prog, top, end, base, sl, sh)
  {
    forall pc | top <= pc < end ensures Sane(img, prog[pc], base, sl, sh) {
      if top + 2 <= pc < end - 2 { assert Sane(img, prog[pc], base, sl + 1, sh); }
    }
    forall pc, t | top <= pc < end && t in Targets(prog, pc) ensures Enters(prog, top, end, pc, t) {
      if top + 2 <= pc < end - 2 { assert Enters(prog, top + 2, end - 2, pc, t); }
    }
    forall p, c | top <= p < end && top <= c < end ensures Paired(prog, top, end, p, c) && Apart(img, prog, p, c) {
      if top + 2 <= p < end - 2 { assert Sane(img, prog[p], base, sl + 1, sh); }
      if top + 2 <= c < end - 2 { assert Sane(img, prog[c], base, sl + 1, sh); }
      if top + 2 <= p < end - 2 && top + 2 <= c < end - 2 {
        assert Paired(prog, top + 2, end - 2, p, c) && Apart(img, prog, p, c);
      }
    }
  }

  // ----- compiled code is tidy

  lemma {:induction false} CodeIsTidy(img: Image, prog: seq<Inst>, n: Node, groups: nat, lo: nat, sl: nat)
    requires WellFormed(n, groups) && Codes(img, prog, n, lo, sl) && 2 * (groups + 1) <= sl
    ensures Tidy(img, prog, lo, lo + Len(n), 2 * (groups + 1), sl, sl + Marks(n))
    decreases n, 0
  {
    hide Tidy, Codes, Len, Marks;
    match n
    case Group(g, x) => GroupIsTidy(img, prog, g, x, groups, lo, sl);
    case Concat(_) => ConcatIsTidy(img, prog, n, groups, lo, sl);
    case Alt(_) => ChoiceIsTidy(img, prog, n, groups, lo, sl);
    case Repeat(_, _, _, _, _) => RepeatIsTidy(img, prog, n, groups, lo, sl);
    case _ => LeafIsTidy(img, prog, n, lo, 2 * (groups + 1), sl);
  }

  lemma {:induction false} ConcatIsTidy(img: Image, prog: seq<Inst>, n: Node, groups: nat, lo: nat, sl: nat)
    requires n.Concat? && WellFormed(n, groups) && Codes(img, prog, n, lo, sl) && 2 * (groups + 1) <= sl
    ensures Tidy(img, prog, lo, lo + Len(n), 2 * (groups + 1), sl, sl + Marks(n))
    decreases n.items, 1
  {
    hide Tidy;
    SeqIsTidy(img, prog, n.items, groups, lo, sl);
  }

  lemma {:induction false} ChoiceIsTidy(img: Image, prog: seq<Inst>, n: Node, groups: nat, lo: nat, sl: nat)
    requires n.Alt? && WellFormed(n, groups) && Codes(img, prog, n, lo, sl) && 2 * (groups + 1) <= sl
    ensures Tidy(img, prog, lo, lo + Len(n), 2 * (groups + 1), sl, sl + Marks(n))
    decreases n.branches, 1
  {
    hide Tidy;
    AltIsTidy(img, prog, n.branches, groups, lo, sl, lo + AltLen(n.branches));
  }

  lemma {:induction false} RepeatIsTidy(img: Image, prog: seq<Inst>, n: Node, groups: nat, lo: nat, sl: nat)
    requires n.Repeat? && WellFormed(n, groups) && Codes(img, prog, n, lo, sl) && 2 * (groups + 1) <= sl
    ensures Tidy(img, prog, lo, lo + Len(n), 2 * (groups + 1), sl, sl + Marks(n))
    decreases n.inner, 5
  {
    hide Tidy, Codes, Len, Marks, CodesCopies, CodesTail;
    RepeatCode(img, prog, n, lo, sl);
    RepsAreTidy(img, prog, n.inner, groups, n.min, More(n.min, n.max), n.greedy, lo, sl);
  }

  lemma {:induction false} GroupIsTidy(img: Image, prog: seq<Inst>, g: Option<nat>, x: Node, groups: nat, lo: nat, sl: nat)
    requires WellFormed(x, groups) && 2 * (groups + 1) <= sl && (g.Some? ==> g.value <= groups)
    requires Codes(img, prog, Group(g, x), lo, sl)
    ensures Tidy(img, prog, lo, lo + Len(Group(g, x)), 2 * (groups + 1), sl, sl + Marks(Group(g, x)))
    decreases x, 4
  {
    hide Tidy, Codes, Len, Marks;
    GroupCode(img, prog, g, x, lo, sl);
    if g.None? {
      CodeIsTidy(img, prog, x, groups, lo, sl);
    } else {
      CodeIsTidy(img, prog, x, groups, lo + 1, sl);
      CaptureIsTidy(img, prog, lo, lo + 2 + Len(x), 2 * (groups + 1), sl, sl + Marks(x));
    }
  }

  lemma LeafIsTidy(img: Image, prog: seq<Inst>, n: Node, lo: nat, base: nat, sl: nat)
    requires n.Empty? || n.Literal? || n.AnyChar? || n.OneOf? || n.Assert? || n.Look?
    requires Codes(img, prog, n, lo, sl) && base <= sl
    ensures Tidy(img, prog, lo, lo + Len(n), base, sl, sl + Marks(n))
  {
  }

  lemma CaptureIsTidy(img: Image, prog: seq<Inst>, lo: nat, hi: nat, base: nat, sl: nat, sh: nat)
    requires lo + 2 <= hi <= |prog|
    requires Tidy(img, prog, lo + 1, hi - 1, base, sl, sh)
    requires prog[lo].Save? && prog[lo].slot < base && prog[hi - 1].Save? && prog[hi - 1].slot < base
    ensures Tidy(img, prog, lo, hi, base, sl, sh)
  {
    TidyNothing(img, prog, hi, base, sh);
    TidyGlue(img, prog, lo, lo + 1, hi - 1, hi, hi, base, sl, sh, sh);
  }

  lemma {:induction false} SeqIsTidy(img: Image, prog: seq<Inst>, items: seq<Node>, groups: nat, lo: nat, sl: nat)
    requires (forall x | x in items :: WellFormed(x, groups)) && CodesSeq(img, prog, items, lo, sl) && 2 * (groups + 1) <= sl
    ensures Tidy(img, prog, lo, lo + SeqLen(items), 2 * (groups + 1), sl, sl + SeqMarks(items))
    decreases items, 0
  {
    hide Codes, Tidy;
    var base := 2 * (groups + 1);
    if items == [] {
      TidyNothing(img, prog, lo, base, sl);
    } else {
      var mid, sm := lo + Len(items[0]), sl + Marks(items[0]);
      CodeIsTidy(img, prog, items[0], groups, lo, sl);
      SeqIsTidy(img, prog, items[1..], groups, mid, sm);
      TidyJoin(img, prog, lo, mid, lo + SeqLen(items), base, sl, sm, sl + SeqMarks(items));
    }
  }

  lemma {:induction false} AltIsTidy(img: Image, prog: seq<Inst>, branches: seq<Node>, groups: nat, lo: nat, sl: nat, end: nat)
    requires (forall x | x in branches :: WellFormed(x, groups)) && 2 * (groups + 1) <= sl
    requires CodesAlt(img, prog, branches, lo, sl, end) && end == lo + AltLen(branches)
    ensures Tidy(img, prog, lo, end, 2 * (groups + 1), sl, sl + SeqMarks(branches))
    decreases branches, 0
  {
    hide Codes, Tidy;
    var base := 2 * (groups + 1);
    if branches == [] {
      TidyNothing(img, prog, lo, base, sl);
    } else if |branches| == 1 {
      CodeIsTidy(img, prog, branches[0], groups, lo, sl);
      assert SeqMarks(branches[1..]) == 0;
    } else {
      var next, sm := lo + Len(branches[0]) + 2, sl + Marks(branches[0]);
      CodeIsTidy(img, prog, branches[0], groups, lo + 1, sl);
      AltIsTidy(img, prog, branches[1..], groups, next, sm, end);
      BranchIsTidy(img, prog, lo, next, end, base, sl, sm, sl + SeqMarks(branches));
    }
  }

  lemma BranchIsTidy(img: Image, prog: seq<Inst>, lo: nat, next: nat, end: nat, base: nat, sl: nat, sm: nat, sh: nat)
    requires lo + 2 <= next <= end
    requires Tidy(img, prog, lo + 1, next - 1, base, sl, sm) && Tidy(img, prog, next, end, base, sm, sh)
    requires prog[lo] == Split(lo + 1, next) && prog[next - 1] == Jmp(end)
    ensures Tidy(img, prog, lo, end, base, sl, sh)
  {
    TidyGlue(img, prog, lo, lo + 1, next - 1, next, end, base, sl, sm, sh);
  }

  lemma {:induction false} RepsAreTidy(img: Image, prog: seq<Inst>, x: Node, groups: nat, min: nat, more: Option<nat>, greedy: bool, lo: nat, sl: nat)
    requires WellFormed(x, groups) && 2 * (groups + 1) <= sl
    requires CodesCopies(img, prog, x, min, lo, sl)
    requires CodesTail(img, prog, x, more, greedy, lo + CopiesLen(x, min), sl + CopiesMarks(x, min))
    ensures Tidy(img, prog, lo, lo + CopiesLen(x, min) + TailLen(x, more), 2 * (groups + 1), sl, sl + CopiesMarks(x, min) + TailMarks(x, more))
    decreases x, 3, min
  {
    hide Codes, Tidy, CodesTail;
    var base := 2 * (groups + 1);
    if min == 0 {
      TailIsTidy(img, prog, x, groups, more, greedy, lo, sl);
    } else {
      var mid, sm := lo + Len(x), sl + Marks(x);
      assert CopiesLen(x, min) == Len(x) + CopiesLen(x, min - 1) && CopiesMarks(x, min) == Marks(x) + CopiesMarks(x, min - 1);
      assert Codes(img, prog, x, lo, sl) && CodesCopies(img, prog, x, min - 1, mid, sm);
      hide CodesCopies, CopiesLen, CopiesMarks, TailLen, TailMarks, Len, Marks;
      CodeIsTidy(img, prog, x, groups, lo, sl);
      RepsAreTidy(img, prog, x, groups, min - 1, more, greedy, mid, sm);
      TidyJoin(img, prog, lo, mid, lo + CopiesLen(x, min) + TailLen(x, more), base, sl, sm, sl + CopiesMarks(x, min) + TailMarks(x, more));
    }
  }

  lemma TidyJoin(img: Image, prog: seq<Inst>, lo: nat, mid: nat, hi: nat, base: nat, sl: nat, sm: nat, sh: nat)
    requires Tidy(img, prog, lo, mid, base, sl, sm) && Tidy(img, prog, mid, hi, base, sm, sh)
    ensures Tidy(img, prog, lo, hi, base, sl, sh)
  {
    TidyGlue(img, prog, lo, lo, mid, mid, hi, base, sl, sm, sh);
  }

  lemma {:induction false} TailIsTidy(img: Image, prog: seq<Inst>, x: Node, groups: nat, more: Option<nat>, greedy: bool, lo: nat, sl: nat)
    requires WellFormed(x, groups) && 2 * (groups + 1) <= sl
    requires CodesTail(img, prog, x, more, greedy, lo, sl)
    ensures Tidy(img, prog, lo, lo + TailLen(x, more), 2 * (groups + 1), sl, sl + TailMarks(x, more))
    decreases x, 2, 0
  {
    hide Codes, Tidy;
    var base, end, sh := 2 * (groups + 1), lo + TailLen(x, more), sl + TailMarks(x, more);
    if more.Some? {
      OptionsAreTidy(img, prog, x, groups, more.value, greedy, lo, sl, end);
    } else if Nullable(x) {
      CodeIsTidy(img, prog, x, groups, lo + 2, sl + 1);
      TidyLoop(img, prog, lo, end, base, sl, sh);
    } else {
      CodeIsTidy(img, prog, x, groups, lo + 1, sl);
      StarIsTidy(img, prog, lo, end, base, sl, sh);
    }
  }

  lemma StarIsTidy(img: Image, prog: seq<Inst>, top: nat, end: nat, base: nat, sl: nat, sh: nat)
    requires top + 2 <= end <= |prog|
    requires Tidy(img, prog, top + 1, end - 1, base, sl, sh)
    requires prog[top] == Split(top + 1, end) || prog[top] == Split(end, top + 1)
    requires prog[end - 1] == Jmp(top)
    ensures Tidy(img, prog, top, end, base, sl, sh)
  {
    TidyNothing(img, prog, end, base, sh);
    TidyGlue(img, prog, top, top + 1, end - 1, end, end, base, sl, sh, sh);
  }

  lemma {:induction false} OptionsAreTidy(img: Image, prog: seq<Inst>, x: Node, groups: nat, k: nat, greedy: bool, lo: nat, sl: nat, end: nat)
    requires WellFormed(x, groups) && 2 * (groups + 1) <= sl
    requires CodesOptions(img, prog, x, k, greedy, lo, sl, end) && end == lo + OptionsLen(x, k)
    ensures Tidy(img, prog, lo, end, 2 * (groups + 1), sl, sl + CopiesMarks(x, k))
    decreases x, 1, k, 0
  {
    hide Codes, Tidy;
    var base := 2 * (groups + 1);
    if k == 0 {
      TidyNothing(img, prog, lo, base, sl);
    } else {
      var mid, sm := lo + 1 + Len(x), sl + Marks(x);
      CodeIsTidy(img, prog, x, groups, lo + 1, sl);
      OptionsAreTidy(img, prog, x, groups, k - 1, greedy, mid, sm, end);
      OptionIsTidy(img, prog, lo, mid, end, base, sl, sm, sl + CopiesMarks(x, k));
    }
  }

  lemma OptionIsTidy(img: Image, prog: seq<Inst>, lo: nat, mid: nat, end: nat, base: nat, sl: nat, sm: nat, sh: nat)
    requires lo < mid <= end
    requires Tidy(img, prog, lo + 1, mid, base, sl, sm) && Tidy(img, prog, mid, end, base, sm, sh)
    requires prog[lo] == Split(lo + 1, end) || prog[lo] == Split(end, lo + 1)
    ensures Tidy(img, prog, lo, end, base, sl, sh)
  {
    TidyGlue(img, prog, lo, lo + 1, mid, mid, end, base, sl, sm, sh);
  }
}
