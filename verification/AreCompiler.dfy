/**
 The compiler: `Emit` appends the code of a tree to a program, filling in the
 targets of its jumps once they are known, and `Program` makes a program of its
 own for a run of sibling trees.
 */
module AreCompiler {
  import opened Wrappers
  import opened AreSyntax
  import opened AreProgram
  import opened AreSearch

  const MAX_PROGRAM: nat := 100_000

  // ----- code that grows at its end

  lemma {:induction false} SeqSnoc(img: Image, prog: seq<Inst>, items: seq<Node>, x: Node, lo: nat, sl: nat)
    requires CodesSeq(img, prog, items, lo, sl) && Codes(img, prog, x, lo + SeqLen(items), sl + SeqMarks(items))
    ensures CodesSeq(img, prog, items + [x], lo, sl)
    ensures SeqLen(items + [x]) == SeqLen(items) + Len(x) && SeqMarks(items + [x]) == SeqMarks(items) + Marks(x)
    decreases |items|
  {
    hide Codes, Len, Marks;
    if items == [] {
      assert items + [x] == [x] && [x][1..] == [];
      CodesInRange(img, prog, x, lo, sl);
    } else {
      assert (items + [x])[0] == items[0] && (items + [x])[1..] == items[1..] + [x];
      SeqSnoc(img, prog, items[1..], x, lo + Len(items[0]), sl + Marks(items[0]));
    }
  }

  lemma CodesInRange(img: Image, prog: seq<Inst>, x: Node, lo: nat, sl: nat)
    requires Codes(img, prog, x, lo, sl)
    ensures lo + Len(x) <= |prog|
  {
  }

  lemma {:induction false} CopiesSnoc(img: Image, prog: seq<Inst>, x: Node, k: nat, lo: nat, sl: nat)
    requires CodesCopies(img, prog, x, k, lo, sl) && Codes(img, prog, x, lo + CopiesLen(x, k), sl + CopiesMarks(x, k))
    ensures CodesCopies(img, prog, x, k + 1, lo, sl)
    decreases k
  {
    hide Codes, Len, Marks;
    if k == 0 {
      CodesInRange(img, prog, x, lo, sl);
    } else {
      CopiesSnoc(img, prog, x, k - 1, lo + Len(x), sl + Marks(x));
    }
  }

  // ----- code whose jumps are still to be filled in

  function OpenLen(branches: seq<Node>): nat {
    if branches == [] then 0 else Len(branches[0]) + 2 + OpenLen(branches[1..])
  }

  /** Branches each followed by a jump, at the addresses `jumps`, whose target is not known yet. */
  ghost predicate OpenAlt(img: Image, prog: seq<Inst>, branches: seq<Node>, lo: nat, sl: nat, jumps: seq<nat>) {
    if branches == [] then jumps == [] && lo <= |prog|
    else
      var next := lo + Len(branches[0]) + 2;
      && next <= |prog|
      && prog[lo] == Split(lo + 1, next)
      && Codes(img, prog, branches[0], lo + 1, sl)
      && jumps != [] && jumps[0] == next - 1
      && OpenAlt(img, prog, branches[1..], next, sl + Marks(branches[0]), jumps[1..])
  }

  lemma {:induction false} OpenAltSnoc(img: Image, prog: seq<Inst>, branches: seq<Node>, x: Node, lo: nat, sl: nat, jumps: seq<nat>)
    requires OpenAlt(img, prog, branches, lo, sl, jumps)
    requires
      var at := lo + OpenLen(branches);
      at + Len(x) + 2 <= |prog| && prog[at] == Split(at + 1, at + Len(x) + 2) && Codes(img, prog, x, at + 1, sl + SeqMarks(branches))
    ensures OpenAlt(img, prog, branches + [x], lo, sl, jumps + [lo + OpenLen(branches) + Len(x) + 1])
    ensures OpenLen(branches + [x]) == OpenLen(branches) + Len(x) + 2 && SeqMarks(branches + [x]) == SeqMarks(branches) + Marks(x)
    decreases |branches|
  {
    hide Codes, Len, Marks;
    var j := lo + OpenLen(branches) + Len(x) + 1;
    if branches == [] {
      assert branches + [x] == [x] && [x][1..] == [];
      assert jumps + [j] == [j] && [j][1..] == [];
    } else {
      var b := branches[0];
      assert (branches + [x])[0] == b && (branches + [x])[1..] == branches[1..] + [x];
      assert (jumps + [j])[0] == jumps[0] && (jumps + [j])[1..] == jumps[1..] + [j];
      OpenAltSnoc(img, prog, branches[1..], x, lo + Len(b) + 2, sl + Marks(b), jumps[1..]);
    }
  }

  lemma {:induction false} OpenAltFrame(img: Image, prog: seq<Inst>, img': Image, prog': seq<Inst>, branches: seq<Node>, lo: nat, sl: nat, jumps: seq<nat>)
    requires OpenAlt(img, prog, branches, lo, sl, jumps)
    requires Extends(img, img') && lo + OpenLen(branches) <= |prog| && lo + OpenLen(branches) <= |prog'|
    requires forall k | lo <= k < lo + OpenLen(branches) && k !in jumps :: prog'[k] == prog[k]
    ensures OpenAlt(img', prog', branches, lo, sl, jumps)
    decreases |branches|
  {
    hide Codes, Len, Marks;
    if branches != [] {
      var b, next := branches[0], lo + Len(branches[0]) + 2;
      assert jumps == [jumps[0]] + jumps[1..];
      OpenAltJumps(img, prog, branches[1..], next, sl + Marks(b), jumps[1..]);
      CodesFrame(img, prog, img', prog', b, lo + 1, sl);
      forall k | next <= k < next + OpenLen(branches[1..]) && k !in jumps[1..] ensures prog'[k] == prog[k] {
      }
      OpenAltFrame(img, prog, img', prog', branches[1..], next, sl + Marks(b), jumps[1..]);
    }
  }

  /** The jumps are inside the code. */
  lemma {:induction false} OpenAltJumps(img: Image, prog: seq<Inst>, branches: seq<Node>, lo: nat, sl: nat, jumps: seq<nat>)
    requires OpenAlt(img, prog, branches, lo, sl, jumps)
    ensures lo + OpenLen(branches) <= |prog|
    ensures forall j :: j in jumps ==> lo < j < lo + OpenLen(branches)
    decreases |branches|
  {
    hide Codes, Len, Marks;
    if branches != [] {
      assert jumps == [jumps[0]] + jumps[1..];
      OpenAltJumps(img, prog, branches[1..], lo + Len(branches[0]) + 2, sl + Marks(branches[0]), jumps[1..]);
    }
  }

  /** Filling in the jumps and adding the last branch completes an alternation. */
  lemma {:induction false} CloseAlt(img: Image, prog: seq<Inst>, branches: seq<Node>, x: Node, lo: nat, sl: nat, jumps: seq<nat>, end: nat)
    requires OpenAlt(img, prog, branches, lo, sl, jumps)
    requires Codes(img, prog, x, lo + OpenLen(branches), sl + SeqMarks(branches))
    requires forall j :: j in jumps ==> j < |prog| && prog[j] == Jmp(end)
    ensures CodesAlt(img, prog, branches + [x], lo, sl, end)
    ensures AltLen(branches + [x]) == OpenLen(branches) + Len(x) && SeqMarks(branches + [x]) == SeqMarks(branches) + Marks(x)
    decreases |branches|
  {
    hide Codes, Len, Marks;
    if branches == [] {
      assert branches + [x] == [x] && [x][1..] == [];
    } else {
      var b := branches[0];
      assert (branches + [x])[0] == b && (branches + [x])[1..] == branches[1..] + [x];
      assert forall j :: j in jumps[1..] ==> j in jumps;
      CloseAlt(img, prog, branches[1..], x, lo + Len(b) + 2, sl + Marks(b), jumps[1..], end);
    }
  }

  /** `k` optional copies whose splits, at the addresses `splits`, are not filled in yet. */
  ghost predicate OpenOptions(img: Image, prog: seq<Inst>, x: Node, k: nat, lo: nat, sl: nat, splits: seq<nat>) {
    if k == 0 then splits == [] && lo <= |prog|
    else
      && lo < |prog|
      && splits != [] && splits[0] == lo
      && Codes(img, prog, x, lo + 1, sl)
      && OpenOptions(img, prog, x, k - 1, lo + 1 + Len(x), sl + Marks(x), splits[1..])
  }

  lemma {:induction false} OpenOptionsSnoc(img: Image, prog: seq<Inst>, x: Node, k: nat, lo: nat, sl: nat, splits: seq<nat>)
    requires OpenOptions(img, prog, x, k, lo, sl, splits)
    requires lo + OptionsLen(x, k) < |prog| && Codes(img, prog, x, lo + OptionsLen(x, k) + 1, sl + CopiesMarks(x, k))
    ensures OpenOptions(img, prog, x, k + 1, lo, sl, splits + [lo + OptionsLen(x, k)])
    decreases k
  {
    hide Codes, Len, Marks;
    var at := lo + OptionsLen(x, k);
    if k == 0 {
      assert splits + [at] == [at] && [at][1..] == [];
      CodesInRange(img, prog, x, lo + 1, sl);
    } else {
      assert (splits + [at])[0] == splits[0] && (splits + [at])[1..] == splits[1..] + [at];
      OpenOptionsSnoc(img, prog, x, k - 1, lo + 1 + Len(x), sl + Marks(x), splits[1..]);
    }
  }

  lemma {:induction false} OpenOptionsFrame(img: Image, prog: seq<Inst>, img': Image, prog': seq<Inst>, x: Node, k: nat, lo: nat, sl: nat, splits: seq<nat>)
    requires OpenOptions(img, prog, x, k, lo, sl, splits)
    requires Extends(img, img') && lo + OptionsLen(x, k) <= |prog| && lo + OptionsLen(x, k) <= |prog'|
    requires forall q | lo <= q < lo + OptionsLen(x, k) && q !in splits :: prog'[q] == prog[q]
    ensures OpenOptions(img', prog', x, k, lo, sl, splits)
    decreases k
  {
    hide Codes, Len, Marks;
    if k > 0 {
      var next := lo + 1 + Len(x);
      assert splits == [splits[0]] + splits[1..];
      OpenOptionsSplits(img, prog, x, k - 1, next, sl + Marks(x), splits[1..]);
      CodesFrame(img, prog, img', prog', x, lo + 1, sl);
      forall q | next <= q < next + OptionsLen(x, k - 1) && q !in splits[1..] ensures prog'[q] == prog[q] {
      }
      OpenOptionsFrame(img, prog, img', prog', x, k - 1, next, sl + Marks(x), splits[1..]);
    }
  }

  lemma {:induction false} OpenOptionsSplits(img: Image, prog: seq<Inst>, x: Node, k: nat, lo: nat, sl: nat, splits: seq<nat>)
    requires OpenOptions(img, prog, x, k, lo, sl, splits)
    ensures lo + OptionsLen(x, k) <= |prog|
    ensures forall j :: j in splits ==> lo <= j < lo + OptionsLen(x, k)
    decreases k
  {
    hide Codes, Len, Marks;
    if k > 0 {
      assert splits == [splits[0]] + splits[1..];
      OpenOptionsSplits(img, prog, x, k - 1, lo + 1 + Len(x), sl + Marks(x), splits[1..]);
    }
  }

  lemma {:induction false} CloseOptions(img: Image, prog: seq<Inst>, x: Node, k: nat, greedy: bool, lo: nat, sl: nat, splits: seq<nat>, end: nat)
    requires OpenOptions(img, prog, x, k, lo, sl, splits)
    requires forall j :: j in splits ==> j < |prog| && prog[j] == Choose(greedy, j + 1, end)
    ensures CodesOptions(img, prog, x, k, greedy, lo, sl, end)
    decreases k
  {
    hide Codes, Len, Marks;
    if k > 0 {
      assert forall j :: j in splits[1..] ==> j in splits;
      CloseOptions(img, prog, x, k - 1, greedy, lo + 1 + Len(x), sl + Marks(x), splits[1..], end);
    }
  }

  lemma ExtendsTransitive(a: Image, b: Image, c: Image)
    requires Extends(a, b) && Extends(b, c)
    ensures Extends(a, c)
  {
  }

  /** `out` is `prog` with the code of `n` appended. */
  ghost predicate Appended(img: Image, prog: seq<Inst>, out: seq<Inst>, n: Node, sl: nat) {
    prog <= out && |out| == |prog| + Len(n) && Codes(img, out, n, |prog|, sl)
  }

  // ----- the limits

  /** The number of nodes compiled after the copies of `n`, when there were `size` before; none when that is too many. */
  function Grown(n: Node, size: nat): Option<nat>
    decreases n, 0
  {
    if size + 1 > MAX_PROGRAM then None
    else
      match n
      case Group(_, x) => Grown(x, size + 1)
      case Look(_, x) => Grown(x, size + 1)
      case Concat(items) => GrownSeq(items, size + 1)
      case Alt(branches) => GrownSeq(branches, size + 1)
      case Repeat(x, min, max, _, _) =>
        var most := Most(min, max);
        if most > 0 && TooMany(size + 1, most) then None
        else GrownTimes(x, if max.None? then min + 1 else most, size + 1)
      case _ => Some(size + 1)
  }

  function GrownSeq(items: seq<Node>, size: nat): Option<nat>
    decreases items, 0
  {
    if items == [] then Some(size)
    else if Grown(items[0], size).None? then None
    else GrownSeq(items[1..], Grown(items[0], size).value)
  }

  function GrownTimes(x: Node, k: nat, size: nat): Option<nat>
    decreases x, 1, k
  {
    if k == 0 then Some(size)
    else if Grown(x, size).None? then None
    else GrownTimes(x, k - 1, Grown(x, size).value)
  }

  /** The most copies of its body a repetition is written out as. */
  function Most(min: nat, max: Option<nat>): nat {
    if max.Some? && max.value > min then max.value else min
  }

  predicate TooMany(size: nat, most: nat) {
    size * (most + 1) > MAX_PROGRAM * 8
  }

  /** Every node compiled is worth at most six instructions, so an accepted program is never longer than that allows. */
  lemma {:induction false} AcceptedIsShort(n: Node, size: nat)
    requires Grown(n, size).Some?
    ensures size < Grown(n, size).value <= MAX_PROGRAM
    ensures Len(n) + 4 <= 6 * (Grown(n, size).value - size)
    decreases n, 0
  {
    hide TooMany;
    match n
    case Group(_, x) => AcceptedIsShort(x, size + 1);
    case Look(_, x) => AcceptedIsShort(x, size + 1);
    case Concat(items) => AcceptedSeqIsShort(items, size + 1);
    case Alt(branches) => AcceptedSeqIsShort(branches, size + 1);
    case Repeat(x, min, max, _, _) =>
      var more := More(min, max);
      var k := if more.None? then 1 else more.value;
      assert Len(n) == CopiesLen(x, min) + TailLen(x, more);
      assert Grown(n, size) == GrownTimes(x, min + k, size + 1);
      hide Len, Grown;
      TimesApart(x, min, k, size + 1);
      AcceptedTimesIsShort(x, min, size + 1);
      AcceptedTimesIsShort(x, k, GrownTimes(x, min, size + 1).value);
      if more.None? { assert CopiesLen(x, 1) == Len(x) + CopiesLen(x, 0); }
    case _ =>
  }

  lemma {:induction false} AcceptedSeqIsShort(items: seq<Node>, size: nat)
    requires GrownSeq(items, size).Some? && size <= MAX_PROGRAM
    ensures size <= GrownSeq(items, size).value <= MAX_PROGRAM
    ensures SeqLen(items) <= 6 * (GrownSeq(items, size).value - size)
    ensures items != [] ==> AltLen(items) <= 6 * (GrownSeq(items, size).value - size)
    decreases items, 0
  {
    if items != [] {
      AcceptedIsShort(items[0], size);
      AcceptedSeqIsShort(items[1..], Grown(items[0], size).value);
    }
  }

  lemma {:induction false} AcceptedTimesIsShort(x: Node, k: nat, size: nat)
    requires GrownTimes(x, k, size).Some? && size <= MAX_PROGRAM
    ensures size <= GrownTimes(x, k, size).value <= MAX_PROGRAM
    ensures CopiesLen(x, k) + 4 * k <= 6 * (GrownTimes(x, k, size).value - size)
    ensures OptionsLen(x, k) <= 6 * (GrownTimes(x, k, size).value - size)
    decreases x, 1, k
  {
    if k > 0 {
      AcceptedIsShort(x, size);
      AcceptedTimesIsShort(x, k - 1, Grown(x, size).value);
    }
  }

  lemma {:induction false} TimesApart(x: Node, a: nat, b: nat, size: nat)
    ensures GrownTimes(x, a + b, size) ==
      if GrownTimes(x, a, size).None? then None else GrownTimes(x, b, GrownTimes(x, a, size).value)
    decreases a
  {
    hide Grown;
    if a > 0 && Grown(x, size).Some? {
      var c := a - 1;
      TimesApart(x, c, b, Grown(x, size).value);
      assert c + b == a + b - 1;
    }
  }

  class Compiler {
    const groups: nat
    var sets: seq<CharSet>
    var subs: seq<seq<Inst>>
    /** The number of loop slots given out. */
    var marks: nat
    /** The number of nodes compiled. */
    var size: nat
    ghost var looks: seq<Node>
    ghost var bases: seq<nat>

    ghost function Img(): Image
      reads this
    {
      Image(sets, looks, bases)
    }

    /** The next free loop slot. */
    ghost function Slot(): nat
      reads this
    {
      2 * (groups + 1) + marks
    }

    ghost predicate Valid()
      reads this
    {
      && |subs| == |looks| == |bases|
      && (forall k :: 0 <= k < |subs| ==> Unit(Img(), subs[k], [looks[k]], groups, bases[k]))
      && (forall k :: 0 <= k < |sets| ==> Normal(sets[k]))
    }

    constructor (groups: nat)
      ensures Valid() && this.groups == groups && marks == 0 && size == 0 && sets == [] && subs == []
    {
      this.groups := groups;
      sets, subs, marks, size, looks, bases := [], [], 0, 0, [], [];
    }

    /** A larger image keeps every sub-program what it was. */
    lemma StillUnits(img: Image)
      requires Valid() && Extends(Img(), img)
      ensures forall k :: 0 <= k < |subs| ==> Unit(img, subs[k], [looks[k]], groups, bases[k])
    {
      forall k | 0 <= k < |subs| ensures Unit(img, subs[k], [looks[k]], groups, bases[k]) {
        assert Unit(Img(), subs[k], [looks[k]], groups, bases[k]);
        CodesSeqFrame(Img(), subs[k], img, subs[k], [looks[k]], 0, bases[k]);
      }
    }

    /** Append the code of `n` to `prog`; false when the pattern is too complex. */
    method Emit(prog: seq<Inst>, n: Node) returns (ok: bool, out: seq<Inst>)
      requires Valid() && WellFormed(n, groups)
      modifies this
      ensures ok <==> Grown(n, old(size)).Some?
      ensures ok ==> size == Grown(n, old(size)).value
      ensures ok ==> Valid() && Extends(old(Img()), Img())
      ensures ok ==> Appended(Img(), prog, out, n, old(Slot())) && Slot() == old(Slot()) + Marks(n)
      decreases n, 9
    {
      out := prog;
      size := size + 1;
      if size > MAX_PROGRAM { return false, out; }
      match n
      case Empty => ok := true;
      case Literal(c) => ok, out := true, prog + [Char(c)];
      case AnyChar => ok, out := true, prog + [Any];
      case OneOf(cs) =>
        StillUnits(Image(sets + [cs], looks, bases));
        sets := sets + [cs];
        ok, out := true, prog + [Set(|sets| - 1)];
      case Assert(a) => ok, out := true, prog + [Zero(a)];
      case Group(g, x) => ok, out := EmitGroup(prog, g, x);
      case Look(negated, x) => ok, out := EmitLook(prog, negated, x);
      case Concat(items) => ok, out := EmitConcat(prog, items);
      case Alt(branches) => ok, out := EmitAlt(prog, branches);
      case Repeat(x, min, max, greedy, _) => ok, out := EmitRepeat(prog, n);
    }

    method EmitGroup(prog: seq<Inst>, g: Option<nat>, x: Node) returns (ok: bool, out: seq<Inst>)
      requires Valid() && WellFormed(Group(g, x), groups)
      modifies this
      ensures ok <==> Grown(x, old(size)).Some?
      ensures ok ==> size == Grown(x, old(size)).value
      ensures ok ==> Valid() && Extends(old(Img()), Img())
      ensures ok ==> Appended(Img(), prog, out, Group(g, x), old(Slot())) && Slot() == old(Slot()) + Marks(Group(g, x))
      decreases x, 10
    {
      hide Unit, Extends, Normal;
      if g.None? {
        ok, out := Emit(prog, x);
      } else {
        out := prog + [Save(2 * g.value)];
        ok, out := Emit(out, x);
        if !ok { return; }
        ghost var body := out;
        out := out + [Save(2 * g.value + 1)];
        FrameAppend(Img(), body, out, x, |prog| + 1, old(Slot()));
      }
    }

    method EmitLook(prog: seq<Inst>, negated: bool, x: Node) returns (ok: bool, out: seq<Inst>)
      requires Valid() && WellFormed(Look(negated, x), groups)
      modifies this
      ensures ok <==> Grown(x, old(size)).Some?
      ensures ok ==> size == Grown(x, old(size)).value
      ensures ok ==> Valid() && Extends(old(Img()), Img())
      ensures ok ==> Appended(Img(), prog, out, Look(negated, x), old(Slot())) && Slot() == old(Slot()) + Marks(Look(negated, x))
      decreases x, 10
    {
      var sub: seq<Inst>;
      out := prog;
      ok, sub := Emit([], x);
      if !ok { return; }
      ghost var body, img := sub, Image(sets, looks + [x], bases + [old(Slot())]);
      sub := sub + [Match];
      FrameAppend(Img(), body, sub, x, 0, old(Slot()));
      CodesFrame(Img(), sub, img, sub, x, 0, old(Slot()));
      UnitOfOne(img, sub, x, groups, old(Slot()));
      StillUnits(img);
      subs, looks, bases := subs + [sub], looks + [x], bases + [old(Slot())];
      out := prog + [Ahead(negated, |subs| - 1)];
    }

    method EmitConcat(prog: seq<Inst>, items: seq<Node>) returns (ok: bool, out: seq<Inst>)
      requires Valid() && forall x | x in items :: WellFormed(x, groups)
      modifies this
      ensures ok <==> GrownSeq(items, old(size)).Some?
      ensures ok ==> size == GrownSeq(items, old(size)).value
      ensures ok ==> Valid() && Extends(old(Img()), Img())
      ensures ok ==> prog <= out && |out| == |prog| + SeqLen(items) && CodesSeq(Img(), out, items, |prog|, old(Slot()))
      ensures ok ==> Slot() == old(Slot()) + SeqMarks(items)
      decreases items, 1
    {
      hide Grown, Unit, Codes, Len, Marks, Normal, WellFormed;
      out := prog;
      for k := 0 to |items|
        invariant Valid() && Extends(old(Img()), Img())
        invariant prog <= out && |out| == |prog| + SeqLen(items[..k])
        invariant CodesSeq(Img(), out, items[..k], |prog|, old(Slot()))
        invariant Slot() == old(Slot()) + SeqMarks(items[..k])
        invariant GrownSeq(items, old(size)) == GrownSeq(items[k..], size)
      {
        assert items[k..][0] == items[k] && items[k..][1..] == items[k + 1..];
        ghost var before, img := out, Img();
        ok, out := Emit(out, items[k]);
        if !ok { return; }
        CodesSeqFrame(img, before, Img(), out, items[..k], |prog|, old(Slot()));
        SeqSnoc(Img(), out, items[..k], items[k], |prog|, old(Slot()));
        assert items[..k + 1] == items[..k] + [items[k]];
      }
      ok := true;
      assert items[..|items|] == items;
    }

    method EmitAlt(prog: seq<Inst>, branches: seq<Node>) returns (ok: bool, out: seq<Inst>)
      requires Valid() && branches != [] && forall x | x in branches :: WellFormed(x, groups)
      modifies this
      ensures ok <==> GrownSeq(branches, old(size)).Some?
      ensures ok ==> size == GrownSeq(branches, old(size)).value
      ensures ok ==> Valid() && Extends(old(Img()), Img())
      ensures ok ==> prog <= out && |out| == |prog| + AltLen(branches) && CodesAlt(Img(), out, branches, |prog|, old(Slot()), |out|)
      ensures ok ==> Slot() == old(Slot()) + SeqMarks(branches)
      decreases branches, 1
    {
      hide Grown, Unit, Codes, Len, Marks, Normal, WellFormed, OpenAlt, CodesAlt, AltLen, SeqMarks, OpenLen;
      out := prog;
      var jumps: seq<nat> := [];
      var last := |branches| - 1;
      OpenNothing(Img(), prog, branches[..0], |prog|, old(Slot()));
      for k := 0 to last
        invariant Valid() && Extends(old(Img()), Img())
        invariant prog <= out && |out| == |prog| + OpenLen(branches[..k])
        invariant OpenAlt(Img(), out, branches[..k], |prog|, old(Slot()), jumps)
        invariant Slot() == old(Slot()) + SeqMarks(branches[..k])
        invariant GrownSeq(branches, old(size)) == GrownSeq(branches[k..], size)
      {
        assert branches[k..][0] == branches[k] && branches[k..][1..] == branches[k + 1..];
        ghost var before, img := out, Img();
        var split := |out|;
        out := out + [Split(0, 0)];
        ghost var started := out;
        ok, out := Emit(out, branches[k]);
        if !ok { return; }
        ghost var emitted := out;
        jumps := jumps + [|out|];
        out := out + [Jmp(0)];
        out := out[split := Split(split + 1, |out|)];
        assert out[..split] == before;
        BranchEmitted(img, before, Img(), started, emitted, out, branches[..k], branches[k], |prog|, old(Slot()), jumps[..|jumps| - 1]);
        assert branches[..k + 1] == branches[..k] + [branches[k]];
        assert jumps == jumps[..|jumps| - 1] + [|emitted|];
      }
      ghost var before, img := out, Img();
      assert branches[last..] == [branches[last]] && [branches[last]][1..] == [];
      ok, out := Emit(out, branches[last]);
      if !ok { return; }
      ghost var emitted := out;
      var end := |out|;
      OpenAltJumps(img, before, branches[..last], |prog|, old(Slot()), jumps);
      for k := 0 to |jumps|
        invariant |out| == |emitted|
        invariant forall q :: 0 <= q < |out| ==> out[q] == if q in jumps[..k] then Jmp(end) else emitted[q]
      {
        assert jumps[k] in jumps;
        out := out[jumps[k] := Jmp(end)];
        assert jumps[..k + 1] == jumps[..k] + [jumps[k]];
      }
      assert jumps[..|jumps|] == jumps;
      AltEmitted(img, before, Img(), emitted, out, branches[..last], branches[last], |prog|, old(Slot()), jumps);
      assert branches == branches[..last] + [branches[last]];
    }

    method EmitRepeat(prog: seq<Inst>, n: Node) returns (ok: bool, out: seq<Inst>)
      requires Valid() && n.Repeat? && WellFormed(n, groups) && 0 < size <= MAX_PROGRAM
      modifies this
      ensures ok <==> Grown(n, old(size) - 1).Some?
      ensures ok ==> size == Grown(n, old(size) - 1).value
      ensures ok ==> Valid() && Extends(old(Img()), Img())
      ensures ok ==> Appended(Img(), prog, out, n, old(Slot())) && Slot() == old(Slot()) + Marks(n)
      decreases n.inner, 11
    {
      hide Unit, Normal, Codes, CodesCopies, CodesTail, CodesOptions, Len, Marks;
      var Repeat(x, min, max, greedy, _) := n;
      out := prog;
      var most := Most(min, max);
      if most + 1 > 1 && TooMany(size, most) { return false, out; }
      TimesApart(x, min, if max.None? then 1 else most - min, size);
      ok, out := EmitCopies(out, x, min);
      if !ok { return; }
      ghost var mid, img := out, Img();
      if max.None? {
        ok, out := EmitStar(out, x, greedy);
      } else {
        ok, out := EmitOptions(out, x, most - min, greedy);
      }
      if !ok { return; }
      CodesCopiesFrame(img, mid, Img(), out, x, min, |prog|, old(Slot()));
      RepeatEmitted(Img(), out, n, |prog|, old(Slot()));
    }

    method EmitCopies(prog: seq<Inst>, x: Node, min: nat) returns (ok: bool, out: seq<Inst>)
      requires Valid() && WellFormed(x, groups)
      modifies this
      ensures ok <==> GrownTimes(x, min, old(size)).Some?
      ensures ok ==> size == GrownTimes(x, min, old(size)).value
      ensures ok ==> Valid() && Extends(old(Img()), Img())
      ensures ok ==> prog <= out && |out| == |prog| + CopiesLen(x, min) && CodesCopies(Img(), out, x, min, |prog|, old(Slot()))
      ensures ok ==> Slot() == old(Slot()) + CopiesMarks(x, min)
      decreases x, 10
    {
      hide Grown, Unit, Codes, Len, Marks, Normal, WellFormed;
      out := prog;
      for k := 0 to min
        invariant Valid() && Extends(old(Img()), Img())
        invariant prog <= out && |out| == |prog| + CopiesLen(x, k)
        invariant CodesCopies(Img(), out, x, k, |prog|, old(Slot()))
        invariant Slot() == old(Slot()) + CopiesMarks(x, k)
        invariant GrownTimes(x, min, old(size)) == GrownTimes(x, min - k, size)
      {
        ghost var before, img := out, Img();
        ok, out := Emit(out, x);
        if !ok { return; }
        CodesCopiesFrame(img, before, Img(), out, x, k, |prog|, old(Slot()));
        CopiesSnoc(Img(), out, x, k, |prog|, old(Slot()));
      }
      ok := true;
    }

    method EmitStar(prog: seq<Inst>, x: Node, greedy: bool) returns (ok: bool, out: seq<Inst>)
      requires Valid() && WellFormed(x, groups)
      modifies this
      ensures ok <==> GrownTimes(x, 1, old(size)).Some?
      ensures ok ==> size == GrownTimes(x, 1, old(size)).value
      ensures ok ==> Valid() && Extends(old(Img()), Img())
      ensures ok ==> prog <= out && |out| == |prog| + TailLen(x, None) && CodesTail(Img(), out, x, None, greedy, |prog|, old(Slot()))
      ensures ok ==> Slot() == old(Slot()) + TailMarks(x, None)
      decreases x, 10
    {
      hide Grown, Unit, Codes, Len, Marks, Normal, WellFormed, CodesTail, Nullable;
      var top := |prog|;
      out := prog + [Split(0, 0)];
      ghost var body := top + 1;
      ghost var emitted;
      if Nullable(x) {
        var slot := 2 * (groups + 1) + marks;
        marks := marks + 1;
        out := out + [Mark(slot)];
        ok, out := Emit(out, x);
        if !ok { return; }
        body, emitted := top + 2, out;
        out := out + [Check(slot)];
        out := out + [Jmp(top)];
      } else {
        ok, out := Emit(out, x);
        if !ok { return; }
        emitted := out;
        out := out + [Jmp(top)];
      }
      var end := |out|;
      out := out[top := if greedy then Split(top + 1, end) else Split(end, top + 1)];
      CodesFrame(Img(), emitted, Img(), out, x, body, if Nullable(x) then old(Slot()) + 1 else old(Slot()));
      StarEmitted(Img(), out, x, greedy, top, old(Slot()));
    }

    method EmitOptions(prog: seq<Inst>, x: Node, opt: nat, greedy: bool) returns (ok: bool, out: seq<Inst>)
      requires Valid() && WellFormed(x, groups)
      modifies this
      ensures ok <==> GrownTimes(x, opt, old(size)).Some?
      ensures ok ==> size == GrownTimes(x, opt, old(size)).value
      ensures ok ==> Valid() && Extends(old(Img()), Img())
      ensures ok ==> prog <= out && |out| == |prog| + OptionsLen(x, opt)
      ensures ok ==> CodesOptions(Img(), out, x, opt, greedy, |prog|, old(Slot()), |out|)
      ensures ok ==> Slot() == old(Slot()) + CopiesMarks(x, opt)
      decreases x, 10
    {
      hide Grown, Unit, Codes, Len, Marks, Normal, WellFormed, OpenOptions, CodesOptions;
      out := prog;
      var splits: seq<nat> := [];
      OpenNoOptions(Img(), prog, x, |prog|, old(Slot()));
      for k := 0 to opt
        invariant Valid() && Extends(old(Img()), Img())
        invariant prog <= out && |out| == |prog| + OptionsLen(x, k)
        invariant OpenOptions(Img(), out, x, k, |prog|, old(Slot()), splits)
        invariant Slot() == old(Slot()) + CopiesMarks(x, k)
        invariant GrownTimes(x, opt, old(size)) == GrownTimes(x, opt - k, size)
      {
        ghost var before, img := out, Img();
        splits := splits + [|out|];
        out := out + [Split(0, 0)];
        ok, out := Emit(out, x);
        if !ok { return; }
        OpenOptionsFrame(img, before, Img(), out, x, k, |prog|, old(Slot()), splits[..|splits| - 1]);
        OpenOptionsSnoc(Img(), out, x, k, |prog|, old(Slot()), splits[..|splits| - 1]);
        assert splits == splits[..|splits| - 1] + [|before|];
      }
      ok := true;
      var emitted := out;
      var end := |out|;
      OpenOptionsSplits(Img(), emitted, x, opt, |prog|, old(Slot()), splits);
      out := FillSplits(emitted, splits, greedy, end);
      OpenOptionsFrame(Img(), emitted, Img(), out, x, opt, |prog|, old(Slot()), splits);
      CloseOptions(Img(), out, x, opt, greedy, |prog|, old(Slot()), splits, end);
    }

    /** Every split of a run of optional copies leaves for the same end. */
    static method FillSplits(prog: seq<Inst>, splits: seq<nat>, greedy: bool, end: nat) returns (out: seq<Inst>)
      requires forall j :: j in splits ==> j < |prog|
      ensures |out| == |prog| && forall q :: 0 <= q < |out| ==> out[q] == if q in splits then Choose(greedy, q + 1, end) else prog[q]
    {
      out := prog;
      for k := 0 to |splits|
        invariant |out| == |prog|
        invariant forall q :: 0 <= q < |out| ==> out[q] == if q in splits[..k] then Choose(greedy, q + 1, end) else prog[q]
      {
        var at := splits[k];
        assert at in splits;
        out := out[at := if greedy then Split(at + 1, end) else Split(end, at + 1)];
        assert splits[..k + 1] == splits[..k] + [splits[k]];
      }
      assert splits[..|splits|] == splits;
    }

    /** A program of its own for a run of sibling nodes, ending in `Match`. */
    method Program(nodes: seq<Node>) returns (ok: bool, prog: seq<Inst>)
      requires Valid() && forall n | n in nodes :: WellFormed(n, groups)
      modifies this
      ensures ok <==> GrownSeq(nodes, old(size)).Some?
      ensures ok ==> size == GrownSeq(nodes, old(size)).value
      ensures ok ==> Valid() && Extends(old(Img()), Img())
      ensures ok ==> Unit(Img(), prog, nodes, groups, old(Slot())) && Slot() == old(Slot()) + SeqMarks(nodes)
      ensures ok && old(size) <= MAX_PROGRAM ==> |prog| <= 6 * (size - old(size)) + 1
    {
      ghost var before := size;
      ok, prog := EmitConcat([], nodes);
      if !ok { return; }
      if before <= MAX_PROGRAM { AcceptedSeqIsShort(nodes, before); }
      ghost var body := prog;
      prog := prog + [Match];
      CodesSeqFrame(Img(), body, Img(), prog, nodes, 0, old(Slot()));
    }
  }

  // ----- what one pass of the emitting loops adds

  lemma OpenNothing(img: Image, prog: seq<Inst>, branches: seq<Node>, lo: nat, sl: nat)
    requires branches == [] && lo <= |prog|
    ensures OpenAlt(img, prog, branches, lo, sl, []) && OpenLen(branches) == 0 && SeqMarks(branches) == 0
  {
  }

  lemma OpenNoOptions(img: Image, prog: seq<Inst>, x: Node, lo: nat, sl: nat)
    requires lo <= |prog|
    ensures OpenOptions(img, prog, x, 0, lo, sl, [])
  {
  }

  lemma BranchEmitted(img: Image, before: seq<Inst>, img': Image, started: seq<Inst>, emitted: seq<Inst>, out: seq<Inst>,
                      branches: seq<Node>, x: Node, lo: nat, sl: nat, jumps: seq<nat>)
    requires OpenAlt(img, before, branches, lo, sl, jumps) && |before| == lo + OpenLen(branches) && Extends(img, img')
    requires |started| == |before| + 1
    requires Appended(img', started, emitted, x, sl + SeqMarks(branches))
    requires out == (emitted + [Jmp(0)])[|before| := Split(|before| + 1, |emitted| + 1)]
    requires before <= out
    ensures OpenAlt(img', out, branches + [x], lo, sl, jumps + [|emitted|])
    ensures |out| == lo + OpenLen(branches + [x]) && SeqMarks(branches + [x]) == SeqMarks(branches) + Marks(x)
  {
    hide Codes, Len, Marks, OpenAlt;
    OpenAltFrame(img, before, img', out, branches, lo, sl, jumps);
    CodesFrame(img', emitted, img', out, x, |before| + 1, sl + SeqMarks(branches));
    OpenAltSnoc(img', out, branches, x, lo, sl, jumps);
  }

  lemma AltEmitted(img: Image, before: seq<Inst>, img': Image, emitted: seq<Inst>, out: seq<Inst>,
                   branches: seq<Node>, x: Node, lo: nat, sl: nat, jumps: seq<nat>)
    requires OpenAlt(img, before, branches, lo, sl, jumps) && |before| == lo + OpenLen(branches) && Extends(img, img')
    requires Appended(img', before, emitted, x, sl + SeqMarks(branches)) && |out| == |emitted|
    requires forall q :: 0 <= q < |out| ==> out[q] == if q in jumps then Jmp(|emitted|) else emitted[q]
    ensures CodesAlt(img', out, branches + [x], lo, sl, |out|)
    ensures |out| == lo + AltLen(branches + [x]) && SeqMarks(branches + [x]) == SeqMarks(branches) + Marks(x)
    ensures before[..lo] <= out
  {
    hide Codes, Len, Marks, OpenAlt, CodesAlt;
    OpenAltJumps(img, before, branches, lo, sl, jumps);
    OpenAltFrame(img, before, img', out, branches, lo, sl, jumps);
    CodesFrame(img', emitted, img', out, x, |before|, sl + SeqMarks(branches));
    CloseAlt(img', out, branches, x, lo, sl, jumps, |out|);
  }

  /** Code at the end of a program stays code when the program grows. */
  lemma FrameAppend(img: Image, prog: seq<Inst>, prog': seq<Inst>, x: Node, lo: nat, sl: nat)
    requires Codes(img, prog, x, lo, sl) && prog <= prog'
    ensures Codes(img, prog', x, lo, sl)
  {
    hide Codes, Len;
    CodesInRange(img, prog, x, lo, sl);
    CodesFrame(img, prog, img, prog', x, lo, sl);
  }

  lemma StarEmitted(img: Image, out: seq<Inst>, x: Node, greedy: bool, top: nat, sl: nat)
    requires
      var end := top + TailLen(x, None);
      && |out| == end && out[top] == Choose(greedy, top + 1, end) && out[end - 1] == Jmp(top)
      && if Nullable(x) then out[top + 1] == Mark(sl) && out[end - 2] == Check(sl) && Codes(img, out, x, top + 2, sl + 1)
         else Codes(img, out, x, top + 1, sl)
    ensures CodesTail(img, out, x, None, greedy, top, sl)
  {
    hide Codes, Nullable;
  }

  lemma RepeatEmitted(img: Image, out: seq<Inst>, n: Node, lo: nat, sl: nat)
    requires n.Repeat?
    requires
      var (x, more) := (n.inner, More(n.min, n.max));
      var (mid, msl) := (lo + CopiesLen(x, n.min), sl + CopiesMarks(x, n.min));
      && CodesCopies(img, out, x, n.min, lo, sl)
      && |out| == mid + TailLen(x, more)
      && if more.Some? then CodesOptions(img, out, x, more.value, n.greedy, mid, msl, |out|)
         else CodesTail(img, out, x, None, n.greedy, mid, msl)
    ensures Codes(img, out, n, lo, sl) && |out| == lo + Len(n)
    ensures Marks(n) == CopiesMarks(n.inner, n.min) + TailMarks(n.inner, More(n.min, n.max))
  {
    hide CodesCopies, CodesOptions, CopiesLen, CopiesMarks, Nullable;
    var more := More(n.min, n.max);
    assert CodesTail(img, out, n.inner, more, n.greedy, lo + CopiesLen(n.inner, n.min), sl + CopiesMarks(n.inner, n.min)) by {
      if more.None? { assert more == None; }
    }
  }

  lemma UnitOfOne(img: Image, sub: seq<Inst>, x: Node, groups: nat, sl: nat)
    requires WellFormed(x, groups) && 2 * (groups + 1) <= sl
    requires Codes(img, sub, x, 0, sl) && |sub| == Len(x) + 1 && sub[|sub| - 1] == Match
    ensures Unit(img, sub, [x], groups, sl)
  {
    hide Codes, Len, Marks;
    assert [x][1..] == [];
    assert SeqLen([x][1..]) == 0 && SeqLen([x]) == Len(x);
    assert CodesSeq(img, sub, [x][1..], Len(x), sl + Marks(x));
  }
}
