/**
 What the dissection of a span is: which spans of a plan dissect (`Good`), and
 the captures the dissection leaves (`Captured`).

 The rules are those of the engine's documentation, stated without its loops: an
 element of a sequence takes the longest end, or the shortest when it prefers
 that, that lets the rest match; an alternation takes its first branch; an
 iteration is divided by the lexicographically first division.
 */
module AreDissection {
  import opened Wrappers
  import opened AreSyntax

  type Caps = seq<Option<nat>>

  /** How a sub-match is assigned once the span it covers is known. */
  datatype Kind =
    | Leaf
    | Capture(number: nat, inner: Plan)
    | Seq(elems: seq<Elem>)
    | Choice(branches: seq<Plan>)
    | Iter(body: Plan, min: nat, max: Option<nat>, greedy: bool, shorter: bool)

  /** A part of the pattern, and the program that matches it alone. */
  datatype Plan = Plan(prog: nat, kind: Kind)

  /** An element of a sequence, and whether it prefers its shortest match. */
  datatype Elem = Elem(plan: Plan, shorter: bool)

  /** A subject, the trees each program was compiled from, and the number of groups. */
  datatype World = World(s: Subject, sources: seq<seq<Node>>, groups: nat)

  // ----- what the parts of a plan match

  ghost predicate Means(w: World, p: Plan, i: nat, j: nat) {
    p.prog < |w.sources| && MatchesSeq(w.s, w.sources[p.prog], i, j)
  }

  lemma MeansBounds(w: World, p: Plan, i: nat, j: nat)
    requires Means(w, p, i, j)
    ensures i <= j <= |w.s.text|
  {
    MatchesSeqBounds(w.s, w.sources[p.prog], i, j);
  }

  ghost predicate SeqMeans(w: World, elems: seq<Elem>, i: nat, j: nat)
    decreases |elems|
  {
    if elems == [] then i == j <= |w.s.text|
    else exists m :: Means(w, elems[0].plan, i, m) && SeqMeans(w, elems[1..], m, j)
  }

  ghost predicate AnyMeans(w: World, branches: seq<Plan>, i: nat, j: nat) {
    exists b :: b in branches && Means(w, b, i, j)
  }

  /** `k` copies of a plan, one after the other. */
  ghost predicate Chain(w: World, x: Plan, k: nat, i: nat, j: nat) {
    if k == 0 then i == j <= |w.s.text|
    else exists m :: Means(w, x, i, m) && Chain(w, x, k - 1, m, j)
  }

  lemma {:induction false} ChainBounds(w: World, x: Plan, k: nat, i: nat, j: nat)
    requires Chain(w, x, k, i, j)
    ensures i <= j <= |w.s.text|
    decreases k
  {
    if k > 0 {
      var m :| Means(w, x, i, m) && Chain(w, x, k - 1, m, j);
      MeansBounds(w, x, i, m);
      ChainBounds(w, x, k - 1, m, j);
    }
  }

  /** One more copy at the end. */
  lemma {:induction false} ChainSnoc(w: World, x: Plan, k: nat, i: nat, m: nat, j: nat)
    requires Chain(w, x, k, i, m) && Means(w, x, m, j)
    ensures Chain(w, x, k + 1, i, j)
    decreases k
  {
    if k == 0 {
      MeansBounds(w, x, m, j);
      assert Chain(w, x, 0, j, j);
    } else {
      var p :| Means(w, x, i, p) && Chain(w, x, k - 1, p, m);
      ChainSnoc(w, x, k - 1, p, m, j);
    }
  }

  lemma {:induction false} ChainLast(w: World, x: Plan, k: nat, i: nat, j: nat) returns (m: nat)
    requires Chain(w, x, k + 1, i, j)
    ensures Chain(w, x, k, i, m) && Means(w, x, m, j)
    decreases k
  {
    var p :| Means(w, x, i, p) && Chain(w, x, k, p, j);
    if k == 0 {
      m := i;
      MeansBounds(w, x, i, p);
    } else {
      m := ChainLast(w, x, k - 1, p, j);
      assert Chain(w, x, k, i, m);
    }
  }

  ghost predicate IterMeans(w: World, x: Plan, min: nat, max: Option<nat>, i: nat, j: nat) {
    exists k :: min <= k && (max.Some? ==> k <= max.value) && Chain(w, x, k, i, j)
  }

  /** The plan of every part matches what the parts inside it say. */
  ghost predicate Coherent(w: World, p: Plan)
    decreases p
  {
    p.prog < |w.sources| &&
    match p.kind
    case Leaf => true
    case Capture(g, x) => g <= w.groups && Coherent(w, x) && forall i, j :: Means(w, p, i, j) <==> Means(w, x, i, j)
    case Seq(elems) =>
      && (forall e :: e in elems ==> Coherent(w, e.plan))
      && (forall i, j :: Means(w, p, i, j) <==> SeqMeans(w, elems, i, j))
    case Choice(branches) =>
      && (forall b :: b in branches ==> Coherent(w, b))
      && (forall i, j :: Means(w, p, i, j) <==> AnyMeans(w, branches, i, j))
    case Iter(x, min, max, _, _) =>
      && Coherent(w, x)
      && (max.Some? ==> min <= max.value && max.value > 0)
      && (forall i, j :: Means(w, p, i, j) <==> IterMeans(w, x, min, max, i, j))
  }

  // ----- which spans dissect

  ghost predicate Good(w: World, p: Plan, i: nat, j: nat)
    decreases p, 0
  {
    match p.kind
    case Leaf => true
    case Capture(_, x) => Good(w, x, i, j)
    case Seq(elems) => GoodSeq(w, elems, i, j)
    case Choice(branches) => GoodChoice(w, branches, i, j)
    case Iter(x, min, max, greedy, shorter) =>
      if min == 0 then i == j || (i < j && Divides(w, x, shorter, MaxMatches(max, i, j), i, j))
      else HasBlob(w, x, min, max, i, j)
  }

  ghost predicate GoodSeq(w: World, elems: seq<Elem>, i: nat, j: nat)
    decreases elems, 2
  {
    if elems == [] then i == j
    else if |elems| == 1 then
      var e := elems[0];
      Means(w, e.plan, i, j) && GoodElem(w, e, i, j)
    else HasEnd(w, elems, i, j)
  }

  ghost predicate HasEnd(w: World, elems: seq<Elem>, i: nat, j: nat)
    decreases elems, 1
  {
    exists m :: GoodEnd(w, elems, i, j, m)
  }

  /** `m` can end the first of two or more elements. */
  ghost predicate GoodEnd(w: World, elems: seq<Elem>, i: nat, j: nat, m: nat)
    decreases elems, 0
  {
    && elems != []
    && Means(w, elems[0].plan, i, m) && m <= j && SeqMeans(w, elems[1..], m, j)
    && GoodElem(w, elems[0], i, m) && GoodSeq(w, elems[1..], m, j)
  }

  ghost predicate GoodElem(w: World, e: Elem, i: nat, j: nat)
    decreases e, 0
  {
    Good(w, e.plan, i, j)
  }

  ghost predicate GoodChoice(w: World, branches: seq<Plan>, i: nat, j: nat)
    decreases branches, 0
  {
    branches != [] &&
    ((Means(w, branches[0], i, j) && Good(w, branches[0], i, j)) || GoodChoice(w, branches[1..], i, j))
  }

  /** `q` can start the last copy of an iteration with a minimum. */
  ghost predicate GoodBlob(w: World, x: Plan, min: nat, max: Option<nat>, i: nat, j: nat, q: nat)
    requires min > 0
    decreases x, 1
  {
    && IterMeans(w, x, min - 1, if max.Some? && max.value > 0 then Some(max.value - 1) else None, i, q)
    && q <= j && Means(w, x, q, j) && Good(w, x, q, j)
  }

  ghost predicate HasBlob(w: World, x: Plan, min: nat, max: Option<nat>, i: nat, j: nat)
    requires min > 0
    decreases x, 2
  {
    exists q :: GoodBlob(w, x, min, max, i, j, q)
  }

  /** The number of iterations a division of `[i, j)` may have. */
  function MaxMatches(max: Option<nat>, i: nat, j: nat): nat
    requires i <= j
  {
    var most := if max.Some? && max.value < j - i then max.value else j - i;
    if most < 1 then 1 else most
  }

  /** `[i, j)` divides into up to `m` non-empty iterations that match and dissect. */
  ghost predicate Divides(w: World, x: Plan, shorter: bool, m: nat, i: nat, j: nat)
    decreases x, 1, m, 1
  {
    exists e :: FirstEnd(w, x, shorter, m, i, j, e)
  }

  /**
   `e` can end the first of up to `m` iterations.  A body that prefers its
   shortest match has one choice for the last iteration it may make.
   */
  ghost predicate FirstEnd(w: World, x: Plan, shorter: bool, m: nat, i: nat, j: nat, e: nat)
    decreases x, 1, m, 0
  {
    && m > 0 && i < e <= j && Means(w, x, i, e) && Good(w, x, i, e)
    && if e == j then m == 1 && shorter ==> forall q :: i < q < j ==> !Means(w, x, i, q)
       else m > 1 && Divides(w, x, shorter, m - 1, e, j)
  }

  // ----- the captures a dissection leaves

  function SetSpan(caps: Caps, g: nat, a: Option<nat>, b: Option<nat>): Caps {
    if 2 * g + 1 < |caps| then caps[2 * g := a][2 * g + 1 := b] else caps
  }

  /** Forget what the groups inside a plan matched. */
  function Zap(p: Plan, caps: Caps): Caps
    decreases p, 0
  {
    match p.kind
    case Leaf => caps
    case Capture(g, x) => Zap(x, SetSpan(caps, g, None, None))
    case Seq(elems) => ZapSeq(elems, caps)
    case Choice(branches) => ZapAll(branches, caps)
    case Iter(x, _, _, _, _) => Zap(x, caps)
  }

  function ZapSeq(elems: seq<Elem>, caps: Caps): Caps
    decreases elems, 0
  {
    if elems == [] then caps else ZapSeq(elems[1..], ZapElem(elems[0], caps))
  }

  function ZapElem(e: Elem, caps: Caps): Caps
    decreases e, 0
  {
    Zap(e.plan, caps)
  }

  function ZapAll(branches: seq<Plan>, caps: Caps): Caps
    decreases branches, 0
  {
    if branches == [] then caps else ZapAll(branches[1..], Zap(branches[0], caps))
  }

  /** The preferred of two ends: the shorter or the longer. */
  predicate Prefers(shorter: bool, a: nat, b: nat) {
    if shorter then a <= b else b <= a
  }

  ghost predicate BestEnd(w: World, elems: seq<Elem>, i: nat, j: nat, m: nat) {
    elems != [] && GoodEnd(w, elems, i, j, m) && forall q :: GoodEnd(w, elems, i, j, q) ==> Prefers(elems[0].shorter, m, q)
  }

  ghost predicate BestBlob(w: World, x: Plan, min: nat, max: Option<nat>, greedy: bool, i: nat, j: nat, m: nat)
    requires min > 0
  {
    GoodBlob(w, x, min, max, i, j, m) && forall q :: GoodBlob(w, x, min, max, i, j, q) ==> Prefers(!greedy, m, q)
  }

  ghost predicate BestFirst(w: World, x: Plan, shorter: bool, m: nat, i: nat, j: nat, e: nat) {
    FirstEnd(w, x, shorter, m, i, j, e) && forall q :: FirstEnd(w, x, shorter, m, i, j, q) ==> Prefers(shorter, e, q)
  }

  /** A bounded non-empty set of positions has a preferred one. */
  lemma {:induction false} Preferred(ok: set<nat>, shorter: bool) returns (m: nat)
    requires ok != {}
    ensures m in ok && forall q :: q in ok ==> Prefers(shorter, m, q)
    decreases |ok|
  {
    m :| m in ok;
    if ok != {m} {
      var n, rest := m, ok - {m};
      assert rest != {} && |rest| < |ok|;
      var r := Preferred(rest, shorter);
      if !Prefers(shorter, m, r) { m := r; }
      forall q | q in ok ensures Prefers(shorter, m, q) {
        if q != n { assert q in rest; }
      }
    }
  }

  lemma BestEndExists(w: World, elems: seq<Elem>, i: nat, j: nat)
    requires HasEnd(w, elems, i, j)
    ensures exists m :: BestEnd(w, elems, i, j, m)
  {
    hide GoodEnd;
    EndsBelow(w, elems, i, j);
    var ok := set m: nat | m <= j && GoodEnd(w, elems, i, j, m);
    var g :| GoodEnd(w, elems, i, j, g);
    assert g in ok;
    var m := Preferred(ok, elems[0].shorter);
    assert BestEnd(w, elems, i, j, m);
  }

  lemma EndsBelow(w: World, elems: seq<Elem>, i: nat, j: nat)
    ensures forall m: nat :: GoodEnd(w, elems, i, j, m) ==> m <= j && elems != []
  {
  }

  lemma BestBlobExists(w: World, x: Plan, min: nat, max: Option<nat>, greedy: bool, i: nat, j: nat)
    requires min > 0 && HasBlob(w, x, min, max, i, j)
    ensures exists m :: BestBlob(w, x, min, max, greedy, i, j, m)
  {
    BlobsBelow(w, x, min, max, i, j);
    hide GoodBlob;
    var ok := set m: nat | m <= j && GoodBlob(w, x, min, max, i, j, m);
    var g :| GoodBlob(w, x, min, max, i, j, g);
    assert g in ok;
    var m := Preferred(ok, !greedy);
    assert BestBlob(w, x, min, max, greedy, i, j, m);
  }

  /** What `GoodBlob` says, without its recursion. */
  lemma BlobParts(w: World, x: Plan, min: nat, max: Option<nat>, i: nat, j: nat, q: nat)
    requires min > 0
    ensures GoodBlob(w, x, min, max, i, j, q) <==>
      && IterMeans(w, x, min - 1, if max.Some? && max.value > 0 then Some(max.value - 1) else None, i, q)
      && q <= j && Means(w, x, q, j) && Good(w, x, q, j)
  {
  }

  lemma BlobsBelow(w: World, x: Plan, min: nat, max: Option<nat>, i: nat, j: nat)
    requires min > 0
    ensures forall m: nat :: GoodBlob(w, x, min, max, i, j, m) ==> m <= j
  {
  }

  lemma BestFirstExists(w: World, x: Plan, shorter: bool, m: nat, i: nat, j: nat)
    requires Divides(w, x, shorter, m, i, j)
    ensures exists e :: BestFirst(w, x, shorter, m, i, j, e)
  {
    FirstsBelow(w, x, shorter, m, i, j);
    var g :| FirstEnd(w, x, shorter, m, i, j, g);
    hide FirstEnd;
    var ok := set e: nat | e <= j && FirstEnd(w, x, shorter, m, i, j, e);
    assert g in ok;
    var e := Preferred(ok, shorter);
    assert BestFirst(w, x, shorter, m, i, j, e);
  }

  lemma FirstOf(w: World, x: Plan, shorter: bool, m: nat, i: nat, j: nat) returns (e: nat)
    requires Divides(w, x, shorter, m, i, j)
    ensures FirstEnd(w, x, shorter, m, i, j, e)
  {
    e :| FirstEnd(w, x, shorter, m, i, j, e);
  }

  lemma FirstsBelow(w: World, x: Plan, shorter: bool, m: nat, i: nat, j: nat)
    ensures forall e: nat :: FirstEnd(w, x, shorter, m, i, j, e) ==> i < e <= j
  {
  }

  /** Where the last iteration of the preferred division starts. */
  ghost function LastStart(w: World, x: Plan, shorter: bool, m: nat, i: nat, j: nat): (q: nat)
    requires Divides(w, x, shorter, m, i, j)
    ensures i <= q < j && Means(w, x, q, j) && Good(w, x, q, j)
    decreases m
  {
    BestFirstExists(w, x, shorter, m, i, j);
    var e :| BestFirst(w, x, shorter, m, i, j, e);
    if e == j then i else LastStart(w, x, shorter, m - 1, e, j)
  }

  ghost function Captured(w: World, p: Plan, i: nat, j: nat, caps: Caps): Caps
    requires i <= j && Good(w, p, i, j)
    decreases p, 0
  {
    match p.kind
    case Leaf => caps
    case Capture(g, x) => Captured(w, x, i, j, SetSpan(caps, g, Some(i), Some(j)))
    case Seq(elems) => CapturedSeq(w, elems, i, j, caps)
    case Choice(branches) => CapturedChoice(w, branches, i, j, caps)
    case Iter(x, min, max, greedy, shorter) =>
      if min == 0 then
        if i == j then caps
        else Captured(w, x, LastStart(w, x, shorter, MaxMatches(max, i, j), i, j), j, Zap(x, caps))
      else
        BestBlobExists(w, x, min, max, greedy, i, j);
        var q :| BestBlob(w, x, min, max, greedy, i, j, q);
        Captured(w, x, q, j, Zap(x, caps))
  }

  ghost function CapturedSeq(w: World, elems: seq<Elem>, i: nat, j: nat, caps: Caps): Caps
    requires i <= j && GoodSeq(w, elems, i, j)
    decreases elems, 0
  {
    if elems == [] then caps
    else if |elems| == 1 then CapturedElem(w, elems[0], i, j, caps)
    else
      BestEndExists(w, elems, i, j);
      var m :| BestEnd(w, elems, i, j, m);
      MeansBounds(w, elems[0].plan, i, m);
      CapturedSeq(w, elems[1..], m, j, CapturedElem(w, elems[0], i, m, caps))
  }

  ghost function CapturedElem(w: World, e: Elem, i: nat, j: nat, caps: Caps): Caps
    requires i <= j && GoodElem(w, e, i, j)
    decreases e, 0
  {
    Captured(w, e.plan, i, j, caps)
  }

  ghost function CapturedChoice(w: World, branches: seq<Plan>, i: nat, j: nat, caps: Caps): Caps
    requires i <= j && GoodChoice(w, branches, i, j)
    decreases branches, 0
  {
    if Means(w, branches[0], i, j) && Good(w, branches[0], i, j) then Captured(w, branches[0], i, j, caps)
    else CapturedChoice(w, branches[1..], i, j, caps)
  }

  // ----- dissection touches the groups of the plan and nothing else

  ghost function Groups(p: Plan): set<nat>
    decreases p, 0
  {
    match p.kind
    case Leaf => {}
    case Capture(g, x) => {g} + Groups(x)
    case Seq(elems) => set e, g | e in elems && g in GroupsOf(e) :: g
    case Choice(branches) => set b, g | b in branches && g in Groups(b) :: g
    case Iter(x, _, _, _, _) => Groups(x)
  }

  ghost function GroupsOf(e: Elem): set<nat>
    decreases e, 0
  {
    Groups(e.plan)
  }

  /** The captures have room for the groups. */
  ghost predicate Roomy(groups: set<nat>, caps: Caps) {
    forall g :: g in groups ==> 2 * g + 1 < |caps|
  }

  /** `caps'` differs from `caps` only at slots of `groups`. */
  ghost predicate Touches(groups: set<nat>, caps: Caps, caps': Caps) {
    |caps'| == |caps| && forall k :: 0 <= k < |caps| && k / 2 !in groups ==> caps'[k] == caps[k]
  }

  ghost predicate Cleared(groups: set<nat>, caps: Caps) {
    forall k :: 0 <= k < |caps| && k / 2 in groups ==> caps[k] == None
  }

  lemma {:induction false} ZapClears(p: Plan, caps: Caps)
    requires Roomy(Groups(p), caps)
    ensures Touches(Groups(p), caps, Zap(p, caps)) && Cleared(Groups(p), Zap(p, caps))
    decreases p, 0
  {
    match p.kind
    case Leaf =>
    case Capture(g, x) => ZapClears(x, SetSpan(caps, g, None, None));
    case Seq(elems) =>
      forall e | e in elems ensures GroupsOf(e) <= Groups(p) {
      }
      ZapSeqClears(elems, caps);
    case Choice(branches) =>
      forall b | b in branches ensures Groups(b) <= Groups(p) {
      }
      ZapAllClears(branches, caps);
    case Iter(x, _, _, _, _) => ZapClears(x, caps);
  }

  lemma {:induction false} ZapSeqClears(elems: seq<Elem>, caps: Caps)
    requires forall e :: e in elems ==> Roomy(GroupsOf(e), caps)
    ensures |ZapSeq(elems, caps)| == |caps|
    ensures forall k :: 0 <= k < |caps| ==>
      ZapSeq(elems, caps)[k] == if exists e :: e in elems && k / 2 in GroupsOf(e) then None else caps[k]
    decreases elems, 0
  {
    if elems != [] {
      var e, rest := elems[0], elems[1..];
      ZapElemClears(e, caps);
      var zapped := ZapElem(e, caps);
      ZapSeqClears(rest, zapped);
      forall k | 0 <= k < |caps|
        ensures ZapSeq(elems, caps)[k] == if exists e :: e in elems && k / 2 in GroupsOf(e) then None else caps[k]
      {
        if exists f :: f in rest && k / 2 in GroupsOf(f) {
          var f :| f in rest && k / 2 in GroupsOf(f);
          assert f in elems;
        } else if exists f :: f in elems && k / 2 in GroupsOf(f) {
          var f :| f in elems && k / 2 in GroupsOf(f);
          assert f == e;
        }
      }
    }
  }

  lemma {:induction false} ZapElemClears(e: Elem, caps: Caps)
    requires Roomy(GroupsOf(e), caps)
    ensures Touches(GroupsOf(e), caps, ZapElem(e, caps)) && Cleared(GroupsOf(e), ZapElem(e, caps))
    decreases e, 0
  {
    ZapClears(e.plan, caps);
  }

  lemma {:induction false} ZapAllClears(branches: seq<Plan>, caps: Caps)
    requires forall b :: b in branches ==> Roomy(Groups(b), caps)
    ensures |ZapAll(branches, caps)| == |caps|
    ensures forall k :: 0 <= k < |caps| ==>
      ZapAll(branches, caps)[k] == if exists b :: b in branches && k / 2 in Groups(b) then None else caps[k]
    decreases branches, 0
  {
    if branches != [] {
      var b, rest := branches[0], branches[1..];
      ZapClears(b, caps);
      var zapped := Zap(b, caps);
      ZapAllClears(rest, zapped);
      forall k | 0 <= k < |caps|
        ensures ZapAll(branches, caps)[k] == if exists b :: b in branches && k / 2 in Groups(b) then None else caps[k]
      {
        if exists f :: f in rest && k / 2 in Groups(f) {
          var f :| f in rest && k / 2 in Groups(f);
          assert f in branches;
        } else if exists f :: f in branches && k / 2 in Groups(f) {
          var f :| f in branches && k / 2 in Groups(f);
          assert f == b;
        }
      }
    }
  }

  lemma {:induction false} CapturedTouches(w: World, p: Plan, i: nat, j: nat, caps: Caps)
    requires i <= j && Good(w, p, i, j) && Roomy(Groups(p), caps)
    ensures Touches(Groups(p), caps, Captured(w, p, i, j, caps))
    decreases p, 0
  {
    match p.kind
    case Leaf =>
    case Capture(g, x) => CapturedTouches(w, x, i, j, SetSpan(caps, g, Some(i), Some(j)));
    case Seq(elems) =>
      forall e | e in elems ensures GroupsOf(e) <= Groups(p) {
      }
      CapturedSeqTouches(w, elems, i, j, caps, Groups(p));
    case Choice(branches) =>
      forall b | b in branches ensures Groups(b) <= Groups(p) {
      }
      CapturedChoiceTouches(w, branches, i, j, caps, Groups(p));
    case Iter(x, min, max, greedy, shorter) =>
      ZapClears(x, caps);
      if min == 0 {
        if i < j {
          CapturedTouches(w, x, LastStart(w, x, shorter, MaxMatches(max, i, j), i, j), j, Zap(x, caps));
        }
      } else {
        BestBlobExists(w, x, min, max, greedy, i, j);
        var q :| BestBlob(w, x, min, max, greedy, i, j, q);
        BlobIsBest(w, x, min, max, greedy, i, j, q, shorter, p.prog, caps);
        CapturedTouches(w, x, q, j, Zap(x, caps));
      }
  }

  /** The preferred start of the last copy is unique, so it is the one `Captured` uses. */
  lemma BlobIsBest(w: World, x: Plan, min: nat, max: Option<nat>, greedy: bool, i: nat, j: nat, q: nat, shorter: bool, prog: nat, caps: Caps)
    requires min > 0 && i <= j && BestBlob(w, x, min, max, greedy, i, j, q)
    ensures
      var p := Plan(prog, Iter(x, min, max, greedy, shorter));
      Good(w, p, i, j) && q <= j && Good(w, x, q, j) && Captured(w, p, i, j, caps) == Captured(w, x, q, j, Zap(x, caps))
  {
    var p := Plan(prog, Iter(x, min, max, greedy, shorter));
    assert HasBlob(w, x, min, max, i, j);
    assert Good(w, p, i, j);
    BestBlobExists(w, x, min, max, greedy, i, j);
    assert forall r: nat :: BestBlob(w, x, min, max, greedy, i, j, r) ==> r == q;
  }

  lemma {:induction false} CapturedSeqTouches(w: World, elems: seq<Elem>, i: nat, j: nat, caps: Caps, groups: set<nat>)
    requires i <= j && GoodSeq(w, elems, i, j) && Roomy(groups, caps)
    requires forall e :: e in elems ==> GroupsOf(e) <= groups
    ensures Touches(groups, caps, CapturedSeq(w, elems, i, j, caps))
    decreases elems, 1
  {
    if |elems| == 1 {
      CapturedElemTouches(w, elems[0], i, j, caps);
    } else if |elems| > 1 {
      BestEndExists(w, elems, i, j);
      var m :| BestEnd(w, elems, i, j, m);
      MeansBounds(w, elems[0].plan, i, m);
      EndIsBest(w, elems, i, j, m, caps);
      CapturedElemTouches(w, elems[0], i, m, caps);
      CapturedSeqTouches(w, elems[1..], m, j, CapturedElem(w, elems[0], i, m, caps), groups);
    }
  }

  /** The preferred end of the first element is unique, so it is the one `CapturedSeq` uses. */
  lemma EndIsBest(w: World, elems: seq<Elem>, i: nat, j: nat, m: nat, caps: Caps)
    requires |elems| > 1 && i <= j && BestEnd(w, elems, i, j, m)
    ensures GoodSeq(w, elems, i, j) && i <= m <= j && GoodElem(w, elems[0], i, m) && GoodSeq(w, elems[1..], m, j)
    ensures CapturedSeq(w, elems, i, j, caps) == CapturedSeq(w, elems[1..], m, j, CapturedElem(w, elems[0], i, m, caps))
  {
    assert HasEnd(w, elems, i, j);
    MeansBounds(w, elems[0].plan, i, m);
    BestEndExists(w, elems, i, j);
    assert forall r: nat :: BestEnd(w, elems, i, j, r) ==> r == m;
  }

  lemma {:induction false} CapturedElemTouches(w: World, e: Elem, i: nat, j: nat, caps: Caps)
    requires i <= j && GoodElem(w, e, i, j) && Roomy(GroupsOf(e), caps)
    ensures Touches(GroupsOf(e), caps, CapturedElem(w, e, i, j, caps))
    decreases e, 0
  {
    CapturedTouches(w, e.plan, i, j, caps);
  }

  lemma {:induction false} CapturedChoiceTouches(w: World, branches: seq<Plan>, i: nat, j: nat, caps: Caps, groups: set<nat>)
    requires i <= j && GoodChoice(w, branches, i, j) && Roomy(groups, caps)
    requires forall b :: b in branches ==> Groups(b) <= groups
    ensures Touches(groups, caps, CapturedChoice(w, branches, i, j, caps))
    decreases branches, 0
  {
    if Means(w, branches[0], i, j) && Good(w, branches[0], i, j) {
      CapturedTouches(w, branches[0], i, j, caps);
    } else {
      CapturedChoiceTouches(w, branches[1..], i, j, caps, groups);
    }
  }

  /** Zapping forgets whatever an earlier iteration of the same body left. */
  lemma ZapForgets(p: Plan, caps: Caps, caps': Caps)
    requires Roomy(Groups(p), caps) && Touches(Groups(p), caps, caps')
    ensures Zap(p, caps') == Zap(p, caps)
  {
    ZapClears(p, caps);
    ZapClears(p, caps');
    assert forall k :: 0 <= k < |caps| ==> Zap(p, caps')[k] == Zap(p, caps)[k];
  }

  lemma CoherentProg(w: World, p: Plan)
    requires Coherent(w, p)
    ensures p.prog < |w.sources|
  {
  }

  lemma {:induction false} CoherentGroups(w: World, p: Plan)
    requires Coherent(w, p)
    ensures forall g :: g in Groups(p) ==> g <= w.groups
    decreases p, 0
  {
    match p.kind
    case Leaf =>
    case Capture(g, x) => CoherentGroups(w, x);
    case Seq(elems) =>
      forall e, g | e in elems && g in GroupsOf(e) ensures g <= w.groups {
        CoherentElemGroups(w, e);
      }
    case Choice(branches) =>
      forall b, g | b in branches && g in Groups(b) ensures g <= w.groups {
        CoherentGroups(w, b);
      }
    case Iter(x, _, _, _, _) => CoherentGroups(w, x);
  }

  lemma {:induction false} CoherentElemGroups(w: World, e: Elem)
    requires Coherent(w, e.plan)
    ensures forall g :: g in GroupsOf(e) ==> g <= w.groups
    decreases e, 0
  {
    CoherentGroups(w, e.plan);
  }
}
