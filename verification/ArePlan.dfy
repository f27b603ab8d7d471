/**
 The dissection plan: which parts of a pattern are matched as units, and which
 are taken apart to find what their groups matched.
 */
module ArePlan {
  import opened Wrappers
  import opened AreSyntax
  import opened AreProgram
  import opened AreSearch
  import opened AreCompiler
  import opened AreDissection

  /** A capturing group is in a part of the pattern that can still match. */
  predicate Captures(n: Node)
    decreases n
  {
    match n
    case Empty => false
    case Literal(_) => false
    case AnyChar => false
    case OneOf(_) => false
    case Assert(_) => false
    case Group(g, x) => g.Some? || Captures(x)
    case Look(_, x) => Captures(x)
    case Concat(items) => exists k | 0 <= k < |items| :: Captures(items[k])
    case Alt(branches) => exists k | 0 <= k < |branches| :: Captures(branches[k])
    case Repeat(x, _, max, _, _) => max != Some(0) && Captures(x)
  }

  predicate Plain(n: Node) {
    !Captures(n)
  }

  // ----- what a plan of a tree is

  predicate Compiled(srcs: seq<seq<Node>>, p: Plan, nodes: seq<Node>) {
    p.prog < |srcs| && srcs[p.prog] == nodes
  }

  /** `p` is the plan of `n`, its programs compiled from `srcs`. */
  predicate PlanOf(srcs: seq<seq<Node>>, p: Plan, n: Node)
    decreases n, 1
  {
    if Captures(n) && n.Group? && n.number.None? then PlanOf(srcs, p, n.inner)
    else Compiled(srcs, p, [n]) && KindOf(srcs, p.kind, n)
  }

  predicate KindOf(srcs: seq<seq<Node>>, kind: Kind, n: Node)
    decreases n, 0
  {
    if Plain(n) then kind == Leaf
    else
      match n
      case Group(g, x) => kind.Capture? && Some(kind.number) == g && PlanOf(srcs, kind.inner, x)
      case Concat(items) => kind.Seq? && ElemsOf(srcs, kind.elems, items)
      case Alt(branches) => kind.Choice? && BranchesOf(srcs, kind.branches, branches)
      case Repeat(x, min, max, greedy, _) =>
        kind.Iter? && kind == Iter(kind.body, min, max, greedy, PrefOf(x) == Shortest) && PlanOf(srcs, kind.body, x)
      case _ => kind == Leaf
  }

  /** Adjacent plain items are one element; any other item is an element of its own. */
  predicate ElemsOf(srcs: seq<seq<Node>>, elems: seq<Elem>, items: seq<Node>)
    decreases items, 1
  {
    if items == [] then elems == []
    else
      && elems != []
      && ElemOf(srcs, elems[0], items)
      && ElemsOf(srcs, elems[1..], items[PartLen(items)..])
  }

  predicate ElemOf(srcs: seq<seq<Node>>, e: Elem, items: seq<Node>)
    requires items != []
    decreases items, 0
  {
    if Captures(items[0]) then e.shorter == (PrefOf(items[0]) == Shortest) && PlanOf(srcs, e.plan, items[0])
    else RunOf(srcs, e, items[..PartLen(items)])
  }

  predicate RunOf(srcs: seq<seq<Node>>, e: Elem, run: seq<Node>) {
    e.plan.kind == Leaf && Compiled(srcs, e.plan, run) && e.shorter == (PrefOfSeq(run) == Shortest)
  }

  /** The number of items in the first element. */
  function PartLen(items: seq<Node>): (c: nat)
    requires items != []
    ensures 1 <= c <= |items|
  {
    if |items| == 1 || Captures(items[0]) || Captures(items[1]) then 1 else 1 + PartLen(items[1..])
  }

  predicate BranchesOf(srcs: seq<seq<Node>>, plans: seq<Plan>, branches: seq<Node>)
    decreases branches, 1
  {
    if branches == [] then plans == []
    else plans != [] && PlanOf(srcs, plans[0], branches[0]) && BranchesOf(srcs, plans[1..], branches[1..])
  }

  // ----- what a plan costs

  /** The number of nodes compiled after the programs of a plan of `n`, when there were `size` before. */
  function PlanGrown(n: Node, size: nat): Option<nat>
    decreases n, 1
  {
    if Captures(n) && n.Group? && n.number.None? then PlanGrown(n.inner, size)
    else
      var parts := if Plain(n) then Some(size) else PartsGrown(n, size);
      if parts.None? then None else GrownSeq([n], parts.value)
  }

  function PartsGrown(n: Node, size: nat): Option<nat>
    decreases n, 0
  {
    match n
    case Group(_, x) => PlanGrown(x, size)
    case Concat(items) => ElemsGrown(items, size)
    case Alt(branches) => BranchesGrown(branches, size)
    case Repeat(x, _, _, _, _) => PlanGrown(x, size)
    case _ => Some(size)
  }

  function ElemsGrown(items: seq<Node>, size: nat): Option<nat>
    decreases items, 1
  {
    if items == [] then Some(size)
    else
      var first := if Captures(items[0]) then PlanGrown(items[0], size) else GrownSeq(items[..PartLen(items)], size);
      if first.None? then None else ElemsGrown(items[PartLen(items)..], first.value)
  }

  function BranchesGrown(branches: seq<Node>, size: nat): Option<nat>
    decreases branches, 1
  {
    if branches == [] then Some(size)
    else
      var first := PlanGrown(branches[0], size);
      if first.None? then None else BranchesGrown(branches[1..], first.value)
  }

  /** A run of plain items before one that captures, or the last, is one element. */
  lemma {:induction false} RunGrown(run: seq<Node>, rest: seq<Node>, size: nat)
    requires AllPlain(run) && (rest != [] ==> Captures(rest[0]))
    ensures ElemsGrown(run + rest, size) ==
      if GrownSeq(run, size).None? then None else ElemsGrown(rest, GrownSeq(run, size).value)
  {
    hide Captures;
    if run == [] {
      assert run + rest == rest;
    } else {
      hide GrownSeq;
      PlainPart(run);
      if rest == [] { assert run + rest == run; } else { PartLenAppend(run, rest); }
      assert (run + rest)[..|run|] == run && (run + rest)[|run|..] == rest && (run + rest)[0] == run[0];
    }
  }

  // ----- more programs change nothing

  lemma {:induction false} PlanOfFrame(srcs: seq<seq<Node>>, srcs': seq<seq<Node>>, p: Plan, n: Node)
    requires PlanOf(srcs, p, n) && srcs <= srcs'
    ensures PlanOf(srcs', p, n)
    decreases n, 2
  {
    if Captures(n) && n.Group? && n.number.None? {
      PlanOfFrame(srcs, srcs', p, n.inner);
    } else {
      KindOfFrame(srcs, srcs', p.kind, n);
    }
  }

  lemma {:induction false} KindOfFrame(srcs: seq<seq<Node>>, srcs': seq<seq<Node>>, kind: Kind, n: Node)
    requires KindOf(srcs, kind, n) && srcs <= srcs'
    ensures KindOf(srcs', kind, n)
    decreases n, 0
  {
    if Captures(n) {
      match n
      case Group(_, x) => PlanOfFrame(srcs, srcs', kind.inner, x);
      case Concat(items) => ElemsOfFrame(srcs, srcs', kind.elems, items);
      case Alt(branches) => BranchesOfFrame(srcs, srcs', kind.branches, branches);
      case Repeat(x, _, _, _, _) => PlanOfFrame(srcs, srcs', kind.body, x);
      case _ =>
    }
  }

  lemma {:induction false} ElemsOfFrame(srcs: seq<seq<Node>>, srcs': seq<seq<Node>>, elems: seq<Elem>, items: seq<Node>)
    requires ElemsOf(srcs, elems, items) && srcs <= srcs'
    ensures ElemsOf(srcs', elems, items)
    decreases items, 1
  {
    if items != [] {
      if Captures(items[0]) { PlanOfFrame(srcs, srcs', elems[0].plan, items[0]); }
      ElemsOfFrame(srcs, srcs', elems[1..], items[PartLen(items)..]);
    }
  }

  lemma {:induction false} BranchesOfFrame(srcs: seq<seq<Node>>, srcs': seq<seq<Node>>, plans: seq<Plan>, branches: seq<Node>)
    requires BranchesOf(srcs, plans, branches) && srcs <= srcs'
    ensures BranchesOf(srcs', plans, branches)
    decreases branches, 1
  {
    if branches != [] {
      PlanOfFrame(srcs, srcs', plans[0], branches[0]);
      BranchesOfFrame(srcs, srcs', plans[1..], branches[1..]);
    }
  }

  // ----- one more element

  predicate AllPlain(run: seq<Node>) {
    forall k | 0 <= k < |run| :: Plain(run[k])
  }

  lemma {:induction false} PartLenAppend(a: seq<Node>, b: seq<Node>)
    requires a != [] && b != [] && (Captures(a[|a| - 1]) || Captures(b[0]))
    ensures PartLen(a + b) == PartLen(a)
    decreases |a|
  {
    if |a| > 1 {
      assert (a + b)[1..] == a[1..] + b;
      PartLenAppend(a[1..], b);
    } else {
      assert (a + b)[1] == b[0];
    }
  }

  lemma {:induction false} PlainPart(run: seq<Node>)
    requires run != [] && AllPlain(run)
    ensures PartLen(run) == |run|
    decreases |run|
  {
    if |run| > 1 {
      assert run[1..][0] == run[1];
      PlainPart(run[1..]);
    }
  }

  /** Another element after a sequence that does not run on into it. */
  lemma {:induction false} ElemsSnoc(srcs: seq<seq<Node>>, elems: seq<Elem>, a: seq<Node>, e: Elem, b: seq<Node>)
    requires ElemsOf(srcs, elems, a)
    requires b != [] && ElemOf(srcs, e, b) && PartLen(b) == |b|
    requires a != [] ==> Captures(a[|a| - 1]) || Captures(b[0])
    ensures ElemsOf(srcs, elems + [e], a + b)
    decreases |a|
  {
    hide PlanOf, RunOf, Captures;
    if a == [] {
      assert a + b == b && elems + [e] == [e];
      assert [e][1..] == [] && b[|b|..] == [];
    } else {
      var c := PartLen(a);
      PartLenAppend(a, b);
      assert (a + b)[..c] == a[..c] && (a + b)[c..] == a[c..] + b;
      assert (elems + [e])[1..] == elems[1..] + [e];
      if a[c..] != [] { assert a[c..][|a| - c - 1] == a[|a| - 1]; }
      ElemsSnoc(srcs, elems[1..], a[c..], e, b);
    }
  }

  lemma {:induction false} BranchesSnoc(srcs: seq<seq<Node>>, plans: seq<Plan>, branches: seq<Node>, p: Plan, x: Node)
    requires BranchesOf(srcs, plans, branches) && PlanOf(srcs, p, x)
    ensures BranchesOf(srcs, plans + [p], branches + [x])
    decreases |branches|
  {
    hide PlanOf;
    if branches == [] {
      assert branches + [x] == [x] && plans + [p] == [p] && [x][1..] == [] && [p][1..] == [];
    } else {
      assert (branches + [x])[1..] == branches[1..] + [x] && (plans + [p])[1..] == plans[1..] + [p];
      BranchesSnoc(srcs, plans[1..], branches[1..], p, x);
    }
  }

  // ----- building the plan

  /** The compiler, and the programs the plan asks about. */
  class Planner {
    const compiler: Compiler
    var progs: seq<seq<Inst>>
    ghost var sources: seq<seq<Node>>
    ghost var bases: seq<nat>

    ghost predicate Valid()
      reads this, compiler
    {
      && compiler.Valid()
      && |progs| == |sources| == |bases|
      && forall k :: 0 <= k < |progs| ==>
           && Unit(compiler.Img(), progs[k], sources[k], compiler.groups, bases[k])
           && bases[k] + SeqMarks(sources[k]) <= compiler.Slot()
    }

    constructor (compiler: Compiler)
      requires compiler.Valid()
      ensures Valid() && this.compiler == compiler && sources == []
    {
      this.compiler := compiler;
      progs, sources, bases := [], [], [];
    }

    method Compile(nodes: seq<Node>) returns (ok: bool, prog: nat)
      requires Valid() && forall n | n in nodes :: WellFormed(n, compiler.groups)
      modifies this, compiler
      ensures ok <==> GrownSeq(nodes, old(compiler.size)).Some?
      ensures ok ==> compiler.size == GrownSeq(nodes, old(compiler.size)).value
      ensures ok ==> Valid() && Extends(old(compiler.Img()), compiler.Img()) && old(compiler.Slot()) <= compiler.Slot()
      ensures ok ==> prog == |old(sources)| && sources == old(sources) + [nodes]
    {
      hide Unit, SeqMarks;
      var code;
      ghost var img := compiler.Img();
      ok, code := compiler.Program(nodes);
      prog := |progs|;
      if !ok { return; }
      forall k | 0 <= k < |progs| ensures Unit(compiler.Img(), progs[k], sources[k], compiler.groups, bases[k]) {
        assert Unit(img, progs[k], sources[k], compiler.groups, bases[k]);
        UnitFrame(img, compiler.Img(), progs[k], sources[k], compiler.groups, bases[k]);
      }
      progs, sources, bases := progs + [code], sources + [nodes], bases + [old(compiler.Slot())];
    }

    method MakePlan(n: Node) returns (ok: bool, p: Plan)
      requires Valid() && WellFormed(n, compiler.groups)
      modifies this, compiler
      ensures ok <==> PlanGrown(n, old(compiler.size)).Some?
      ensures ok ==> compiler.size == PlanGrown(n, old(compiler.size)).value
      ensures ok ==> Valid() && Extends(old(compiler.Img()), compiler.Img()) && old(compiler.Slot()) <= compiler.Slot()
      ensures ok ==> old(sources) <= sources && PlanOf(sources, p, n)
      decreases n, 1
    {
      p := Plan(0, Leaf);
      var prog, kind := 0, Leaf;
      if !Plain(n) {
        if n.Group? && n.number.None? {
          ok, p := MakePlan(n.inner);
          return;
        } else if n.Group? {
          var inner;
          ok, inner := MakePlan(n.inner);
          if !ok { return; }
          kind := Capture(n.number.value, inner);
        } else if n.Concat? {
          var elems;
          ok, elems := PlanElems(n.items);
          if !ok { return; }
          kind := Seq(elems);
        } else if n.Alt? {
          var plans;
          ok, plans := PlanBranches(n.branches);
          if !ok { return; }
          kind := Choice(plans);
        } else if n.Repeat? {
          var body;
          ok, body := MakePlan(n.inner);
          if !ok { return; }
          kind := Iter(body, n.min, n.max, n.greedy, PrefOf(n.inner) == Shortest);
        }
      }
      ghost var held := sources;
      assert KindOf(held, kind, n);
      ok, prog := Compile([n]);
      p := Plan(prog, kind);
      if ok { KindOfFrame(held, sources, kind, n); }
    }

    method PlanElems(items: seq<Node>) returns (ok: bool, elems: seq<Elem>)
      requires Valid() && forall x | x in items :: WellFormed(x, compiler.groups)
      modifies this, compiler
      ensures ok <==> ElemsGrown(items, old(compiler.size)).Some?
      ensures ok ==> compiler.size == ElemsGrown(items, old(compiler.size)).value
      ensures ok ==> Valid() && Extends(old(compiler.Img()), compiler.Img()) && old(compiler.Slot()) <= compiler.Slot()
      ensures ok ==> old(sources) <= sources && ElemsOf(sources, elems, items)
      decreases items, 1
    {
      hide *;
      ok, elems := true, [];
      var run: seq<Node> := [];
      NoneGathered(sources, items, 0, run, elems, compiler.size);
      ExtendsItself(compiler.Img());
      for k := 0 to |items|
        invariant Valid() && Extends(old(compiler.Img()), compiler.Img()) && old(compiler.Slot()) <= compiler.Slot()
        invariant old(sources) <= sources && Gathered(sources, items, k, run, elems, old(compiler.size), compiler.size)
      {
        ghost var img := compiler.Img();
        ok, run, elems := TakeItem(items, k, run, elems, old(compiler.size));
        if !ok { return; }
        ExtendsTransitive(old(compiler.Img()), img, compiler.Img());
      }
      ghost var img := compiler.Img();
      ok, elems := TakeLast(items, run, elems, old(compiler.size));
      if ok { ExtendsTransitive(old(compiler.Img()), img, compiler.Img()); }
    }

    /** A plain item joins the open run; one that captures closes it and is an element of its own. */
    method TakeItem(items: seq<Node>, k: nat, run: seq<Node>, elems: seq<Elem>, ghost size0: nat)
      returns (ok: bool, run': seq<Node>, elems': seq<Elem>)
      requires Valid() && (forall x | x in items :: WellFormed(x, compiler.groups)) && k < |items|
      requires Gathered(sources, items, k, run, elems, size0, compiler.size)
      modifies this, compiler
      ensures !ok ==> ElemsGrown(items, size0).None?
      ensures ok ==> Valid() && Extends(old(compiler.Img()), compiler.Img()) && old(compiler.Slot()) <= compiler.Slot()
      ensures ok ==> old(sources) <= sources && Gathered(sources, items, k + 1, run', elems', size0, compiler.size)
      decreases items, 0
    {
      hide *;
      var x := items[k];
      if Plain(x) {
        PlainGathered(sources, items, k, run, elems, size0, compiler.size);
        ExtendsItself(compiler.Img());
        return true, run + [x], elems;
      }
      PlainOrNot(x);
      run' := [];
      GatheredIs(sources, items, k, run, elems, size0, compiler.size);
      CapturingGrown(items, k, GrownOr(run, compiler.size));
      ghost var img := compiler.Img();
      ok, elems' := FlushRun(run, elems, items[..k - |run|]);
      if !ok { return; }
      ghost var held, mid := sources, compiler.Img();
      var p;
      ok, p := MakePlan(x);
      if !ok { return; }
      ExtendsTransitive(img, mid, compiler.Img());
      CapturingGathered(held, sources, items, k, elems', Elem(p, PrefOf(x) == Shortest), size0, compiler.size);
      elems' := elems' + [Elem(p, PrefOf(x) == Shortest)];
    }

    /** Close the run that is open at the end. */
    method TakeLast(items: seq<Node>, run: seq<Node>, elems: seq<Elem>, ghost size0: nat) returns (ok: bool, elems': seq<Elem>)
      requires Valid() && forall x | x in items :: WellFormed(x, compiler.groups)
      requires Gathered(sources, items, |items|, run, elems, size0, compiler.size)
      modifies this, compiler
      ensures ok <==> ElemsGrown(items, size0).Some?
      ensures ok ==> compiler.size == ElemsGrown(items, size0).value
      ensures ok ==> Valid() && Extends(old(compiler.Img()), compiler.Img()) && old(compiler.Slot()) <= compiler.Slot()
      ensures ok ==> old(sources) <= sources && ElemsOf(sources, elems', items)
    {
      hide *;
      GatheredIs(sources, items, |items|, run, elems, size0, compiler.size);
      NothingGrown(items, GrownOr(run, compiler.size));
      ok, elems' := FlushRun(run, elems, items[..|items| - |run|]);
    }

    /** Close a run of adjacent plain items into one element. */
    method FlushRun(run: seq<Node>, elems: seq<Elem>, ghost before: seq<Node>) returns (ok: bool, elems': seq<Elem>)
      requires Valid() && AllPlain(run) && forall x | x in run :: WellFormed(x, compiler.groups)
      requires ElemsOf(sources, elems, before) && (before != [] ==> Captures(before[|before| - 1]))
      modifies this, compiler
      ensures ok <==> GrownSeq(run, old(compiler.size)).Some?
      ensures ok ==> compiler.size == GrownSeq(run, old(compiler.size)).value
      ensures ok ==> Valid() && Extends(old(compiler.Img()), compiler.Img()) && old(compiler.Slot()) <= compiler.Slot()
      ensures ok ==> old(sources) <= sources && ElemsOf(sources, elems', before + run)
    {
      hide PlanOf, ElemsOf, WellFormed, Captures;
      ok, elems' := true, elems;
      if run == [] {
        assert before + run == before;
        return;
      }
      var shorter := PrefOfSeq(run) == Shortest;
      ghost var held := sources;
      var prog;
      ok, prog := Compile(run);
      if !ok { return; }
      var e := Elem(Plan(prog, Leaf), shorter);
      elems' := elems + [e];
      ElemsOfFrame(held, sources, elems, before);
      PlainPart(run);
      PlainElem(sources, e, run);
      ElemsSnoc(sources, elems, before, e, run);
    }

    method PlanBranches(branches: seq<Node>) returns (ok: bool, plans: seq<Plan>)
      requires Valid() && forall x | x in branches :: WellFormed(x, compiler.groups)
      modifies this, compiler
      ensures ok <==> BranchesGrown(branches, old(compiler.size)).Some?
      ensures ok ==> compiler.size == BranchesGrown(branches, old(compiler.size)).value
      ensures ok ==> Valid() && Extends(old(compiler.Img()), compiler.Img()) && old(compiler.Slot()) <= compiler.Slot()
      ensures ok ==> old(sources) <= sources && BranchesOf(sources, plans, branches)
      decreases branches, 0
    {
      hide PlanOf, WellFormed;
      ok, plans := true, [];
      for k := 0 to |branches|
        invariant Valid() && Extends(old(compiler.Img()), compiler.Img()) && old(compiler.Slot()) <= compiler.Slot()
        invariant old(sources) <= sources && BranchesOf(sources, plans, branches[..k])
        invariant BranchesGrown(branches, old(compiler.size)) == BranchesGrown(branches[k..], compiler.size)
      {
        assert branches[k..][0] == branches[k] && branches[k..][1..] == branches[k + 1..];
        ghost var held := sources;
        var p;
        ok, p := MakePlan(branches[k]);
        if !ok { return; }
        BranchesOfFrame(held, sources, plans, branches[..k]);
        BranchesSnoc(sources, plans, branches[..k], p, branches[k]);
        plans := plans + [p];
        assert branches[..k] + [branches[k]] == branches[..k + 1];
      }
      assert branches[..|branches|] == branches;
    }
  }

  /** The cost after a run, when it can be afforded. */
  ghost function GrownOr(run: seq<Node>, size: nat): (r: nat)
    ensures GrownSeq(run, size).Some? ==> r == GrownSeq(run, size).value
  {
    if GrownSeq(run, size).Some? then GrownSeq(run, size).value else 0
  }

  lemma CapturingGrown(items: seq<Node>, k: nat, size: nat)
    requires k < |items| && Captures(items[k])
    ensures ElemsGrown(items[k..], size) ==
      if PlanGrown(items[k], size).None? then None else ElemsGrown(items[k + 1..], PlanGrown(items[k], size).value)
  {
    hide Captures, PlanGrown;
    assert items[k..][0] == items[k] && items[k..][1..] == items[k + 1..];
  }

  lemma PlainOrNot(n: Node)
    ensures Plain(n) <==> !Captures(n)
  {
  }

  lemma NothingGrown(items: seq<Node>, size: nat)
    ensures ElemsGrown(items[|items|..], size) == Some(size)
  {
  }

  lemma UnitFrame(img: Image, img': Image, prog: seq<Inst>, nodes: seq<Node>, groups: nat, sl: nat)
    requires Unit(img, prog, nodes, groups, sl) && Extends(img, img')
    ensures Unit(img', prog, nodes, groups, sl)
  {
    CodesSeqFrame(img, prog, img', prog, nodes, 0, sl);
  }

  /**
   Of the first `k` items a run of plain ones is still open and the rest are
   elements; what is to come grows `size` to what all of them grow `size0` to.
   */
  ghost predicate Gathered(srcs: seq<seq<Node>>, items: seq<Node>, k: nat, run: seq<Node>, elems: seq<Elem>, size0: nat, size: nat) {
    && |run| <= k <= |items| && run == items[k - |run|..k] && AllPlain(run)
    && ElemsOf(srcs, elems, items[..k - |run|])
    && (k > |run| ==> Captures(items[k - |run| - 1]))
    && ElemsGrown(items, size0) == ElemsGrown(items[k - |run|..], size)
  }

  lemma ExtendsItself(img: Image)
    ensures Extends(img, img)
  {
  }

  lemma NoneGathered(srcs: seq<seq<Node>>, items: seq<Node>, k: nat, run: seq<Node>, elems: seq<Elem>, size: nat)
    requires k == 0 && run == [] && elems == []
    ensures Gathered(srcs, items, k, run, elems, size, size)
  {
    assert items[..0] == [] && items[0..] == items;
  }

  lemma PlainGathered(srcs: seq<seq<Node>>, items: seq<Node>, k: nat, run: seq<Node>, elems: seq<Elem>, size0: nat, size: nat)
    requires Gathered(srcs, items, k, run, elems, size0, size) && k < |items| && Plain(items[k])
    ensures Gathered(srcs, items, k + 1, run + [items[k]], elems, size0, size)
  {
    hide ElemsOf, Captures, ElemsGrown;
    assert k + 1 - |run + [items[k]]| == k - |run|;
  }

  lemma GatheredIs(srcs: seq<seq<Node>>, items: seq<Node>, k: nat, run: seq<Node>, elems: seq<Elem>, size0: nat, size: nat)
    requires Gathered(srcs, items, k, run, elems, size0, size) && (k < |items| ==> Captures(items[k]))
    ensures |run| <= k <= |items| && AllPlain(run) && items[..k - |run|] + run == items[..k]
    ensures forall x | x in run :: x in items
    ensures
      var before := items[..k - |run|];
      ElemsOf(srcs, elems, before) && (before != [] ==> Captures(before[|before| - 1]))
    ensures ElemsGrown(items, size0) ==
      if GrownSeq(run, size).None? then None else ElemsGrown(items[k..], GrownOr(run, size))
    ensures items[..|items|] == items
  {
    hide ElemsOf, Captures, AllPlain, GrownSeq, ElemsGrown;
    RunGrown(run, items[k..], size);
    assert items[k - |run|..] == run + items[k..];
  }

  /** An item that captures is one more element, whatever is before it. */
  lemma CapturingGathered(held: seq<seq<Node>>, srcs: seq<seq<Node>>, items: seq<Node>, k: nat, elems: seq<Elem>, e: Elem,
                          size0: nat, size: nat)
    requires k < |items| && ElemsOf(held, elems, items[..k]) && held <= srcs
    requires Captures(items[k]) && PlanOf(srcs, e.plan, items[k]) && e.shorter == (PrefOf(items[k]) == Shortest)
    requires ElemsGrown(items, size0) == ElemsGrown(items[k + 1..], size)
    ensures Gathered(srcs, items, k + 1, [], elems + [e], size0, size)
  {
    hide ElemsOf, PlanOf, Captures, ElemsGrown;
    ElemsOfFrame(held, srcs, elems, items[..k]);
    ElemsSnoc(srcs, elems, items[..k], e, [items[k]]);
    assert items[..k] + [items[k]] == items[..k + 1];
  }

  lemma PlainElem(srcs: seq<seq<Node>>, e: Elem, run: seq<Node>)
    requires run != [] && AllPlain(run) && RunOf(srcs, e, run)
    ensures ElemOf(srcs, e, run)
  {
    PlainPart(run);
    assert run[..|run|] == run;
  }

  // ----- the plan means what the tree means

  lemma {:induction false} ChainIsCopies(w: World, p: Plan, x: Node, k: nat, i: nat, j: nat)
    requires forall a, b :: Means(w, p, a, b) <==> Matches(w.s, x, a, b)
    ensures Chain(w, p, k, i, j) <==> Copies(w.s, x, k, i, j)
    decreases k
  {
    hide Means, Matches;
    if k > 0 {
      var rest := k - 1;
      forall m: nat ensures Chain(w, p, rest, m, j) <==> Copies(w.s, x, rest, m, j) {
        ChainIsCopies(w, p, x, rest, m, j);
      }
    }
  }

  lemma MeansOne(w: World, p: Plan, n: Node)
    requires Compiled(w.sources, p, [n])
    ensures forall i, j :: Means(w, p, i, j) <==> Matches(w.s, n, i, j)
  {
    forall i, j ensures Means(w, p, i, j) <==> Matches(w.s, n, i, j) {
      MatchesSingleton(w.s, n, i, j);
    }
  }

  /** Every part of a plan matches exactly what the part of the tree it stands for denotes. */
  lemma {:induction false} PlanIsCoherent(w: World, p: Plan, n: Node)
    requires PlanOf(w.sources, p, n) && WellFormed(n, w.groups)
    ensures Coherent(w, p)
    ensures forall i, j :: Means(w, p, i, j) <==> Matches(w.s, n, i, j)
    decreases n, 0
  {
    if Plain(n) {
      MeansOne(w, p, n);
    } else if n.Group? && n.number.None? {
      PlanIsCoherent(w, p, n.inner);
    } else {
      MeansOne(w, p, n);
      match n
      case Group(g, x) => PlanIsCoherent(w, p.kind.inner, x);
      case Concat(items) =>
        ElemsAreCoherent(w, p.kind.elems, items);
        forall i, j ensures Matches(w.s, n, i, j) <==> MatchesSeq(w.s, items, i, j) {
          if MatchesSeq(w.s, items, i, j) { MatchesSeqBounds(w.s, items, i, j); }
        }
      case Alt(branches) =>
        BranchesAreCoherent(w, p.kind.branches, branches);
      case Repeat(x, min, max, _, _) =>
        PlanIsCoherent(w, p.kind.body, x);
        IterIsReps(w, p, x, n);
      case _ =>
    }
  }

  lemma IterIsReps(w: World, p: Plan, x: Node, n: Node)
    requires n.Repeat? && n.inner == x && WellFormed(n, w.groups)
    requires p.kind.Iter? && p.kind.min == n.min && p.kind.max == n.max
    requires forall a, b :: Means(w, p.kind.body, a, b) <==> Matches(w.s, x, a, b)
    ensures forall i, j :: IterMeans(w, p.kind.body, n.min, n.max, i, j) <==> Matches(w.s, n, i, j)
  {
    hide Means;
    var body, more := p.kind.body, More(n.min, n.max);
    forall i, j ensures IterMeans(w, body, n.min, n.max, i, j) <==> Matches(w.s, n, i, j) {
      forall k: nat ensures Chain(w, body, k, i, j) <==> Copies(w.s, x, k, i, j) {
        ChainIsCopies(w, body, x, k, i, j);
      }
      if IterMeans(w, body, n.min, n.max, i, j) {
        var k :| n.min <= k && (n.max.Some? ==> k <= n.max.value) && Chain(w, body, k, i, j);
        CopiesBounds(w.s, x, k, i, j);
        assert Reps(w.s, x, n.min, more, i, j);
      }
      if Matches(w.s, n, i, j) {
        assert Reps(w.s, x, n.min, more, i, j);
        var k :| n.min <= k && (more.Some? ==> k <= n.min + more.value) && Copies(w.s, x, k, i, j);
        assert Chain(w, body, k, i, j);
      }
    }
  }

  lemma {:induction false} ElemsAreCoherent(w: World, elems: seq<Elem>, items: seq<Node>)
    requires ElemsOf(w.sources, elems, items) && forall x | x in items :: WellFormed(x, w.groups)
    ensures forall e | e in elems :: Coherent(w, e.plan)
    ensures forall i, j :: SeqMeans(w, elems, i, j) <==> MatchesSeq(w.s, items, i, j)
    decreases items, 1
  {
    if items != [] {
      var c, e := PartLen(items), elems[0];
      ElemIsCoherent(w, e, items);
      ElemsAreCoherent(w, elems[1..], items[c..]);
      assert elems == [e] + elems[1..];
      hide Matches, Means, Coherent, ElemOf;
      forall i, j ensures SeqMeans(w, elems, i, j) <==> MatchesSeq(w.s, items, i, j) {
        assert items[..c] + items[c..] == items;
        if SeqMeans(w, elems, i, j) {
          var m :| Means(w, elems[0].plan, i, m) && SeqMeans(w, elems[1..], m, j);
          AppendSeq(w.s, items[..c], items[c..], i, m, j);
        }
        if MatchesSeq(w.s, items, i, j) {
          var m := DivideSeq(w.s, items[..c], items[c..], i, j);
          assert Means(w, elems[0].plan, i, m);
        }
      }
    }
  }

  lemma {:induction false} ElemIsCoherent(w: World, e: Elem, items: seq<Node>)
    requires items != [] && ElemOf(w.sources, e, items) && forall x | x in items :: WellFormed(x, w.groups)
    ensures Coherent(w, e.plan)
    ensures forall i, j :: Means(w, e.plan, i, j) <==> MatchesSeq(w.s, items[..PartLen(items)], i, j)
    decreases items, 0
  {
    if Captures(items[0]) {
      PlanIsCoherent(w, e.plan, items[0]);
      assert items[..1] == [items[0]];
      forall i, j ensures Matches(w.s, items[0], i, j) <==> MatchesSeq(w.s, [items[0]], i, j) {
        MatchesSingleton(w.s, items[0], i, j);
      }
    }
  }

  lemma {:induction false} BranchesAreCoherent(w: World, plans: seq<Plan>, branches: seq<Node>)
    requires BranchesOf(w.sources, plans, branches) && forall x | x in branches :: WellFormed(x, w.groups)
    ensures forall p | p in plans :: Coherent(w, p)
    ensures forall i, j :: AnyMeans(w, plans, i, j) <==> exists b :: b in branches && Matches(w.s, b, i, j)
    decreases branches, 1
  {
    if branches != [] {
      PlanIsCoherent(w, plans[0], branches[0]);
      BranchesAreCoherent(w, plans[1..], branches[1..]);
      assert plans == [plans[0]] + plans[1..] && branches == [branches[0]] + branches[1..];
      forall i, j ensures AnyMeans(w, plans, i, j) <==> exists b :: b in branches && Matches(w.s, b, i, j) {
        EitherBranch(w, plans, branches, i, j);
      }
    }
  }

  lemma EitherBranch(w: World, plans: seq<Plan>, branches: seq<Node>, i: nat, j: nat)
    requires plans != [] && branches != [] && (Means(w, plans[0], i, j) <==> Matches(w.s, branches[0], i, j))
    requires AnyMeans(w, plans[1..], i, j) <==> exists b :: b in branches[1..] && Matches(w.s, b, i, j)
    ensures AnyMeans(w, plans, i, j) <==> exists b :: b in branches && Matches(w.s, b, i, j)
  {
    hide Matches, Means;
    if AnyMeans(w, plans, i, j) {
      var q :| q in plans && Means(w, q, i, j);
      if q == plans[0] {
        assert branches[0] in branches;
      } else {
        assert q in plans[1..];
        var b :| b in branches[1..] && Matches(w.s, b, i, j);
      }
    }
    if exists b :: b in branches && Matches(w.s, b, i, j) {
      var b :| b in branches && Matches(w.s, b, i, j);
      if b == branches[0] {
        assert plans[0] in plans;
      } else {
        assert b in branches[1..];
        var q :| q in plans[1..] && Means(w, q, i, j);
      }
    }
  }
}
