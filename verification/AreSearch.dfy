/**
 The search itself: `Explore` follows every path of a program from one start,
 with a stack of frames, captures edited in place under an undo log, a budget of
 steps, and a table that keeps a pair from being followed twice.
 */
module AreSearch {
  import opened Wrappers
  import opened AreSyntax
  import opened AreProgram
  import opened AreSteps
  import opened AreTidy
  import opened AreFrontier
  import opened AreVisited
  import AreCharSet

  /** Whether a search ran to its end or exhausted its budget. */
  datatype Outcome = Done | Overflow

  /** What a search sees of the subject, and how much work it may still do. */
  class Search {
    const s: Subject
    var budget: nat

    constructor (s: Subject, budget: nat)
      ensures this.s == s && this.budget == budget
    {
      this.s := s;
      this.budget := budget;
    }
  }

  /** A program compiled from `nodes`, one after the other, and ending in `Match`. */
  ghost predicate Unit(img: Image, prog: seq<Inst>, nodes: seq<Node>, groups: nat, sl: nat) {
    && (forall n :: n in nodes ==> WellFormed(n, groups))
    && 2 * (groups + 1) <= sl
    && CodesSeq(img, prog, nodes, 0, sl)
    && |prog| == SeqLen(nodes) + 1
    && prog[|prog| - 1] == Match
  }

  lemma UnitIsLinked(s: Subject, img: Image, prog: seq<Inst>, nodes: seq<Node>, groups: nat, sl: nat)
    requires Unit(img, prog, nodes, groups, sl)
    ensures prog != [] && prog[|prog| - 1] == Match
    ensures Linked(Task(s, img, prog, 2 * (groups + 1), sl, sl + SeqMarks(nodes)))
  {
    hide CodesSeq, SeqLen, SeqMarks, Tidy;
    SeqIsTidy(img, prog, nodes, groups, 0, sl);
  }

  /** Configurations from which only ends of `nodes` from `start` can be reached. */
  ghost function Safe(s: Subject, prog: seq<Inst>, nodes: seq<Node>, start: nat): iset<Config> {
    iset c: Config |
      c.pc < |prog| && c.pos <= |s.text| &&
      forall j :: RestAtSeq(s, nodes, 0, c.pc, c.pos, j) ==> MatchesSeq(s, nodes, start, j)
  }

  lemma SafeIsClosed(t: Task, nodes: seq<Node>, groups: nat, start: nat)
    requires Unit(t.img, t.prog, nodes, groups, t.sl)
    ensures ClosedUnder(t, Safe(t.s, t.prog, nodes, start))
  {
    hide CodesSeq, SeqLen, RestAtSeq, MatchesSeq;
    var safe := Safe(t.s, t.prog, nodes, start);
    forall a, b | a in safe && Steps(t, a, b) ensures b in safe {
      StepIsSafe(t, nodes, groups, start, a, b);
    }
  }

  lemma StepIsSafe(t: Task, nodes: seq<Node>, groups: nat, start: nat, a: Config, b: Config)
    requires Unit(t.img, t.prog, nodes, groups, t.sl)
    requires a in Safe(t.s, t.prog, nodes, start) && Steps(t, a, b)
    ensures b in Safe(t.s, t.prog, nodes, start)
  {
    hide CodesSeq, SeqLen, MatchesSeq, RestSeq;
    assert a.pc != |t.prog| - 1;
    StepRestSeq(t.s, t.img, t.prog, nodes, groups, 0, t.sl, a, b, 0);
    forall j | RestAtSeq(t.s, nodes, 0, b.pc, b.pos, j) ensures MatchesSeq(t.s, nodes, start, j) {
      StepRestSeq(t.s, t.img, t.prog, nodes, groups, 0, t.sl, a, b, j);
      assert RestAtSeq(t.s, nodes, 0, a.pc, a.pos, j);
    }
  }

  lemma StartIsSafe(s: Subject, img: Image, prog: seq<Inst>, nodes: seq<Node>, groups: nat, sl: nat, start: nat)
    requires Unit(img, prog, nodes, groups, sl) && start <= |s.text|
    ensures Config(0, start) in Safe(s, prog, nodes, start)
  {
    hide CodesSeq, SeqLen, RestAtSeq, MatchesSeq;
    forall j | RestAtSeq(s, nodes, 0, 0, start, j) ensures MatchesSeq(s, nodes, start, j) {
      RestEnterSeq(s, nodes, groups, 0, start, j);
    }
  }

  /** Following a `Match` reports an end the nodes denote. */
  lemma MatchIsSound(s: Subject, img: Image, prog: seq<Inst>, nodes: seq<Node>, groups: nat, sl: nat, start: nat, c: Config)
    requires Unit(img, prog, nodes, groups, sl)
    requires c in Safe(s, prog, nodes, start) && c.pc == |prog| - 1
    ensures MatchesSeq(s, nodes, start, c.pos)
  {
    hide CodesSeq, SeqLen, MatchesSeq, RestSeq;
    assert RestAtSeq(s, nodes, 0, c.pc, c.pos, c.pos);
  }

  /** A finished search has followed the `Match` of every end the nodes denote. */
  lemma FinishedIsComplete(t: Task, nodes: seq<Node>, groups: nat, safe: iset<Config>, before: set<Config>, seen: set<Config>, start: nat, j: nat)
    requires Unit(t.img, t.prog, nodes, groups, t.sl)
    requires Frontier(t, safe, before, seen, [], None) && Config(0, start) in seen
    requires MatchesSeq(t.s, nodes, start, j)
    ensures Config(|t.prog| - 1, j) in seen
  {
    hide CodesSeq, SeqLen, MatchesSeq;
    FrontierIsClosed(t, safe, before, seen);
    CompleteSeq(t.s, t.img, t.prog, seen, nodes, 0, t.sl, start, j);
  }

  lemma FrontierIsClosed(t: Task, safe: iset<Config>, before: set<Config>, seen: set<Config>)
    requires Frontier(t, safe, before, seen, [], None)
    ensures Closed(t.s, t.img, t.prog, seen)
  {
    hide CanStep, Spared;
    forall a | a in seen ensures Settled(t.s, t.img, t.prog, seen, a) {
      assert Covered(t, seen, [], None, a);
      if !Spared(t.prog, seen, a) {
        forall b | CanStep(t.s, t.img, t.prog, a, b) ensures b in seen {
          assert Steps(t, a, b);
          assert !Todo([], None, b);
        }
      }
    }
  }

  // ----- a search under way

  /** What a search is asked, what it may follow, the pairs marked before it and the captures it was given. */
  datatype Quest = Quest(t: Task, nodes: seq<Node>, groups: nat, start: nat, safe: iset<Config>, before: set<Config>, origin: seq<Option<nat>>)

  ghost predicate Posed(q: Quest) {
    && Unit(q.t.img, q.t.prog, q.nodes, q.groups, q.t.sl) && Linked(q.t)
    && q.safe == Safe(q.t.s, q.t.prog, q.nodes, q.start) && ClosedUnder(q.t, q.safe)
  }

  /**
   The invariant of the search, with `stack` still to be followed and `at` the
   configuration in hand: the frontier and the slots are kept, undoing the stack
   gives back the captures, the start has not been lost, and `found` is sound and
   has every `Match` that has been followed.
   */
  ghost predicate Going(q: Quest, seen: set<Config>, stack: seq<Frame>, at: Option<Config>, caps: seq<Option<nat>>, found: seq<nat>) {
    && Frontier(q.t, q.safe, q.before, seen, stack, at) && Slots(q.t, seen, stack, caps)
    && Undone(stack, caps) == q.origin
    && (Config(0, q.start) in seen || Todo(stack, at, Config(0, q.start)))
    && (forall j :: j in found ==> MatchesSeq(q.t.s, q.nodes, q.start, j))
    && Reported(q, seen, found)
  }

  /** The ends found are those whose `Match` has been followed and was not marked before. */
  ghost predicate Reported(q: Quest, seen: set<Config>, found: seq<nat>) {
    forall c: Config :: c.pc == |q.t.prog| - 1 ==> (c in seen && c !in q.before <==> c.pos in found)
  }

  lemma GoingStart(q: Quest, stack: seq<Frame>, found: seq<nat>)
    requires Posed(q) && q.start <= |q.t.s.text| && stack == [Run(Config(0, q.start))] && found == []
    requires Based(q.t, q.before)
    requires q.t.sh <= |q.origin| && q.t.base <= |q.origin| && forall k :: q.t.sl <= k < q.t.sh ==> q.origin[k] == None
    ensures Going(q, q.before, stack, None, q.origin, found) && Runs(stack) == 1
  {
    hide Unit, Linked, Safe, MatchesSeq, Frontier, Slots, ClosedUnder;
    StartIsSafe(q.t.s, q.t.img, q.t.prog, q.nodes, q.groups, q.t.sl, q.start);
    StartFrontier(q.t, q.safe, q.before, q.start, q.origin);
    assert Run(Config(0, q.start)) in stack;
  }

  lemma GoingRestore(q: Quest, seen: set<Config>, stack: seq<Frame>, caps: seq<Option<nat>>, found: seq<nat>)
    requires Posed(q) && Going(q, seen, stack, None, caps, found) && stack != [] && stack[|stack| - 1].Restore?
    ensures
      var (rest, f) := (stack[..|stack| - 1], stack[|stack| - 1]);
      f.slot < |caps| && Going(q, seen, rest, None, caps[f.slot := f.value], found) && Runs(rest) == Runs(stack)
  {
    hide Unit, Linked, Safe, MatchesSeq, Frontier, Slots, ClosedUnder, Undone, Runs, Reported;
    PopRestore(q.t, q.safe, q.before, seen, stack, caps);
    if Todo(stack, None, Config(0, q.start)) { StartKept(stack, None, None, Config(0, q.start)); }
  }

  /** A configuration waiting below the top of the stack, or in its top frame. */
  lemma StartKept(stack: seq<Frame>, top: Option<Config>, at: Option<Config>, c: Config)
    requires stack != [] && Todo(stack, None, c) && at == None
    requires if stack[|stack| - 1].Run? then top == Some(stack[|stack| - 1].at) else top == None
    ensures Todo(stack[..|stack| - 1], top, c)
  {
    var rest, f := stack[..|stack| - 1], stack[|stack| - 1];
    assert stack == rest + [f];
  }

  lemma GoingRun(q: Quest, seen: set<Config>, stack: seq<Frame>, caps: seq<Option<nat>>, found: seq<nat>)
    requires Posed(q) && Going(q, seen, stack, None, caps, found) && stack != [] && stack[|stack| - 1].Run?
    ensures
      var (rest, c) := (stack[..|stack| - 1], stack[|stack| - 1].at);
      Going(q, seen, rest, Some(c), caps, found) && InBounds(q.t, c) && Runs(rest) + 1 == Runs(stack)
  {
    hide Unit, Linked, Safe, MatchesSeq, Frontier, Slots, ClosedUnder, Undone, Runs, Reported;
    PopRun(q.t, q.safe, q.before, seen, stack, caps);
    if Todo(stack, None, Config(0, q.start)) { StartKept(stack, Some(stack[|stack| - 1].at), None, Config(0, q.start)); }
  }

  lemma GoingPruned(q: Quest, seen: set<Config>, stack: seq<Frame>, at: Config, caps: seq<Option<nat>>, found: seq<nat>)
    requires Going(q, seen, stack, Some(at), caps, found) && at in seen
    ensures Going(q, seen, stack, None, caps, found)
  {
    hide Frontier, Slots, Undone, Reported, MatchesSeq;
    Prune(q.t, q.safe, q.before, seen, stack, at);
  }

  lemma GoingMatched(q: Quest, seen: set<Config>, stack: seq<Frame>, at: Config, caps: seq<Option<nat>>, found: seq<nat>)
    requires Posed(q) && Going(q, seen, stack, Some(at), caps, found) && InBounds(q.t, at) && q.t.prog[at.pc] == Match
    requires at !in q.before
    ensures Going(q, seen + {at}, stack, None, caps, found + [at.pos])
  {
    hide Unit, Linked, Safe, Frontier, Slots, Undone, MatchesSeq, ClosedUnder;
    FollowMatch(q.t, q.safe, q.before, seen, stack, caps, at);
    MatchIsSound(q.t.s, q.t.img, q.t.prog, q.nodes, q.groups, q.t.sl, q.start, at);
    assert found + [at.pos] == found + [at.pos] && at.pos in found + [at.pos];
  }

  lemma GoingOn(q: Quest, seen: set<Config>, stack: seq<Frame>, a: Config, caps: seq<Option<nat>>, found: seq<nat>,
                stack': seq<Frame>, caps': seq<Option<nat>>, next: Option<Config>)
    requires Posed(q) && Going(q, seen, stack, Some(a), caps, found) && InBounds(q.t, a) && q.t.prog[a.pc] != Match
    requires Dispatched(q.t, a, caps, stack, caps', stack', next)
    ensures Going(q, seen + {a}, stack', next, caps', found) && (next.Some? ==> InBounds(q.t, next.value))
    ensures Runs(stack') <= Runs(stack) + 1
  {
    FrontierStep(q.t, q.safe, q.before, seen, a, stack, caps, stack', caps', next);
    SlotsStep(q.t, q.safe, q.before, seen, a, stack, caps, stack', caps', next);
    LogStep(q.t, a, stack, caps, stack', caps', next);
    assert q.t.prog[|q.t.prog| - 1] == Match;
    StackGrows(q.t, a, caps, stack, caps', stack', next, Config(0, q.start));
    hide Unit, Linked, Safe, Frontier, Slots, Undone, MatchesSeq, ClosedUnder, Dispatched, Runs, InBounds;
  }

  lemma StackGrows(t: Task, a: Config, caps: seq<Option<nat>>, stack: seq<Frame>, caps': seq<Option<nat>>, stack': seq<Frame>,
                   next: Option<Config>, c: Config)
    requires a.pc < |t.prog| && Dispatched(t, a, caps, stack, caps', stack', next)
    ensures Run(c) in stack ==> Run(c) in stack'
  {
    hide Steps;
  }

  lemma GoingIs(q: Quest, seen: set<Config>, stack: seq<Frame>, at: Option<Config>, caps: seq<Option<nat>>, found: seq<nat>)
    requires Going(q, seen, stack, at, caps, found)
    ensures forall c :: c in seen ==> c.pc < |q.t.prog| && c.pos <= |q.t.s.text|
    ensures q.t.sh <= |caps| && q.t.base <= |caps|
    ensures forall k :: q.t.sl <= k < q.t.sh && !Owns(q.t, k) ==> caps[k] == None
    ensures forall j :: j in found ==> MatchesSeq(q.t.s, q.nodes, q.start, j)
    ensures q.before <= seen
    ensures forall j :: j in found <==> Config(|q.t.prog| - 1, j) in seen && Config(|q.t.prog| - 1, j) !in q.before
  {
    hide Owns, Undone, Covered, Guarded, MatchesSeq;
  }

  lemma OneMoreSeen(seen: set<Config>, at: Config)
    requires at !in seen
    ensures |seen + {at}| == |seen| + 1
  {
  }

  lemma NoLookAt(prog: seq<Inst>, at: Config)
    requires at.pc < |prog|
    ensures NoLooks(prog) ==> !prog[at.pc].Ahead?
  {
  }

  lemma SeenMore(t: Task, seen: set<Config>, at: Config)
    requires InBounds(t, at) && forall c :: c in seen ==> c.pc < |t.prog| && c.pos <= |t.s.text|
    ensures forall c :: c in seen + {at} ==> c.pc < |t.prog| && c.pos <= |t.s.text|
  {
  }

  /** With nothing left to follow, every end has been found or was marked before. */
  lemma GoingDone(q: Quest, seen: set<Config>, stack: seq<Frame>, caps: seq<Option<nat>>, found: seq<nat>)
    requires Posed(q) && Going(q, seen, stack, None, caps, found) && stack == []
    ensures caps == q.origin && Based(q.t, seen)
    ensures forall j :: MatchesSeq(q.t.s, q.nodes, q.start, j) ==> j in found || Config(|q.t.prog| - 1, j) in q.before
  {
    assert Config(0, q.start) in seen;
    hide Unit, Linked, Safe, Frontier, Slots, MatchesSeq, ClosedUnder;
    forall j | MatchesSeq(q.t.s, q.nodes, q.start, j) ensures j in found || Config(|q.t.prog| - 1, j) in q.before {
      FinishedIsComplete(q.t, q.nodes, q.groups, q.safe, q.before, seen, q.start, j);
    }
    NothingToUndo(caps);
    Rebase(q.t, q.safe, q.before, seen);
  }

  /** The parts of a compiled pattern that its programs share. */
  class Engine {
    const sets: seq<CharSet>
    const subs: seq<seq<Inst>>
    ghost const looks: seq<Node>
    ghost const bases: seq<nat>
    const groups: nat

    ghost function Img(): Image {
      Image(sets, looks, bases)
    }

    ghost predicate Valid() {
      && |subs| == |looks| == |bases|
      && (forall k :: 0 <= k < |subs| ==> Unit(Img(), subs[k], [looks[k]], groups, bases[k]))
      && (forall k :: 0 <= k < |sets| ==> Normal(sets[k]))
    }

    ghost function TaskOf(s: Subject, prog: seq<Inst>, nodes: seq<Node>, sl: nat): Task {
      Task(s, Img(), prog, 2 * (groups + 1), sl, sl + SeqMarks(nodes))
    }

    constructor (sets: seq<CharSet>, subs: seq<seq<Inst>>, ghost looks: seq<Node>, ghost bases: seq<nat>, groups: nat)
      ensures this.sets == sets && this.subs == subs && this.looks == looks && this.bases == bases && this.groups == groups
    {
      this.sets := sets;
      this.subs := subs;
      this.looks := looks;
      this.bases := bases;
      this.groups := groups;
    }

    /**
     One instruction other than `Match`: what it does to the captures and the
     stack, and where it leads.
     */
    method Dispatch(prog: seq<Inst>, search: Search, a: Config, caps: array<Option<nat>>, stack: seq<Frame>, ghost t: Task)
      returns (outcome: Outcome, stack': seq<Frame>, next: Option<Config>)
      requires Valid() && t.s == search.s && t.img == Img() && t.prog == prog && t.base == 2 * (groups + 1) && Linked(t)
      requires InBounds(t, a) && prog[a.pc] != Match
      requires t.sh <= caps.Length && t.base <= caps.Length
      requires forall k :: t.sl <= k < t.sh && !Owns(t, k) ==> caps[k] == None
      modifies search, caps
      ensures search.budget <= old(search.budget)
      ensures outcome == Overflow ==> search.budget == 0
      ensures !prog[a.pc].Ahead? ==> outcome == Done && search.budget == old(search.budget)
      ensures outcome == Done ==> Dispatched(t, a, old(caps[..]), stack, caps[..], stack', next)
      decreases search.budget, 2
    {
      outcome, stack', next := Done, stack, None;
      var pc, pos, n := a.pc, a.pos, |search.s.text|;
      assert Sane(t.img, prog[pc], t.base, t.sl, t.sh);
      match prog[pc]
      case Char(c) =>
        if pos < n && search.s.text[pos] == c { next := Some(Config(pc + 1, pos + 1)); }
      case Any =>
        if pos < n && (search.s.dotall || search.s.text[pos] != NEWLINE) { next := Some(Config(pc + 1, pos + 1)); }
      case Set(k) =>
        if pos < n {
          var inside := AreCharSet.Contains(sets[k], search.s.text[pos]);
          if inside { next := Some(Config(pc + 1, pos + 1)); }
        }
      case Split(first, second) =>
        stack' := stack + [Run(Config(second, pos))];
        next := Some(Config(first, pos));
      case Jmp(target) => next := Some(Config(target, pos));
      case Save(slot) =>
        stack' := stack + [Restore(slot, caps[slot])];
        caps[slot] := Some(pos);
        next := Some(Config(pc + 1, pos));
      case Mark(slot) =>
        stack' := stack + [Restore(slot, caps[slot])];
        caps[slot] := Some(pos);
        next := Some(Config(pc + 1, pos));
      case Check(slot) =>
        if caps[slot] != Some(pos) { next := Some(Config(pc + 1, pos)); }
      case Zero(cond) =>
        if Holds(search.s, cond, pos) { next := Some(Config(pc + 1, pos)); }
      case Ahead(negated, sub) =>
        var inner := new Option<nat>[caps.Length](i requires 0 <= i < caps.Length reads caps => caps[i]);
        var found: seq<nat>;
        LookSlotsAreFree(t, a);
        outcome, found := Explore(subs[sub], search, pos, inner, null, true, [looks[sub]], bases[sub]);
        if outcome == Done {
          LookVerdict(search.s, looks[sub], pos, found);
          if (found != []) != negated { next := Some(Config(pc + 1, pos)); }
        }
    }

    /** No loop of the program uses a slot of a sub-program it asks about. */
    lemma LookSlotsAreFree(t: Task, a: Config)
      requires Linked(t) && InBounds(t, a) && t.prog[a.pc].Ahead?
      requires t.img == Img() && |looks| == |bases|
      ensures
        var sub := t.prog[a.pc].sub;
        sub < |looks| && t.sl <= bases[sub] && bases[sub] + Marks(looks[sub]) <= t.sh &&
        forall k :: bases[sub] <= k < bases[sub] + Marks(looks[sub]) ==> !Owns(t, k)
    {
      assert Sane(t.img, t.prog[a.pc], t.base, t.sl, t.sh);
      var sub := t.prog[a.pc].sub;
      forall k | bases[sub] <= k < bases[sub] + Marks(looks[sub]) ensures !Owns(t, k) {
        forall p | 0 <= p < |t.prog| ensures t.prog[p] != Mark(k) {
          assert Apart(t.img, t.prog, p, a.pc);
        }
      }
    }

    lemma LookVerdict(s: Subject, x: Node, pos: nat, found: seq<nat>)
      requires forall j :: j in found ==> MatchesSeq(s, [x], pos, j)
      requires found == [] ==> forall j :: !MatchesSeq(s, [x], pos, j)
      ensures found != [] <==> Sees(s, x, pos)
    {
      forall j ensures MatchesSeq(s, [x], pos, j) <==> Matches(s, x, pos, j) {
        MatchesSingleton(s, x, pos, j);
      }
      if found != [] {
        assert found[0] in found;
        assert Matches(s, x, pos, found[0]);
      } else {
        forall e ensures !Matches(s, x, pos, e) {
          assert !MatchesSeq(s, [x], pos, e);
        }
      }
    }

    /** What a search under way needs of its parameters. */
    ghost predicate Searching(q: Quest, prog: seq<Inst>, s: Subject, visited: Visited?, seen: set<Config>)
      reads visited
    {
      && Valid() && Posed(q) && Linked(q.t) && q.t.s == s && q.t.img == Img() && q.t.prog == prog && q.t.base == 2 * (groups + 1)
      && (if visited == null then q.before == {}
          else visited.Valid() && visited.marked == seen && visited.insts == |prog| && visited.width == |s.text| + 1)
    }

    lemma SearchingIs(q: Quest, prog: seq<Inst>, s: Subject, visited: Visited?, seen: set<Config>)
      requires Searching(q, prog, s, visited, seen)
      ensures Posed(q) && q.t.prog == prog && q.t.s == s
      ensures if visited == null then q.before == {} else visited.Valid() && visited.marked == seen
    {
    }

    /** Follow one path from `from` until it ends; what branches off it is left on the stack. */
    method Follow(prog: seq<Inst>, search: Search, from: Config, caps: array<Option<nat>>, visited: Visited?, first: bool,
                  stack0: seq<Frame>, found0: seq<nat>, ghost q: Quest, ghost seen0: set<Config>)
      returns (outcome: Outcome, stack: seq<Frame>, found: seq<nat>, ghost seen: set<Config>)
      requires Searching(q, prog, search.s, visited, seen0) && InBounds(q.t, from) && (first ==> found0 == [])
      requires Going(q, seen0, stack0, Some(from), caps[..], found0)
      modifies search, caps
      modifies if visited == null then {} else {visited}
      ensures Searching(q, prog, search.s, visited, seen) && search.budget <= old(search.budget)
      ensures outcome == Overflow ==> search.budget == 0
      ensures outcome == Done ==> Going(q, seen, stack, None, caps[..], found) && search.budget < old(search.budget)
      ensures forall c :: c in seen ==> c.pc < |prog| && c.pos <= |search.s.text|
      ensures visited != null && NoLooks(prog) ==>
        old(search.budget) - search.budget + Runs(stack) <= 2 * (|seen| - |seen0|) + Runs(stack0) + 1
      decreases search.budget, 0
    {
      outcome, stack, found, seen := Done, stack0, found0, seen0;
      var at := from;
      hide Posed, Valid, Going, Runs, InBounds, NoLooks, Dispatched, Linked, Owns;
      while true
        invariant Searching(q, prog, search.s, visited, seen) && InBounds(q.t, at) && outcome == Done
        invariant Going(q, seen, stack, Some(at), caps[..], found) && (first ==> found == [])
        invariant search.budget <= old(search.budget)
        invariant visited != null && NoLooks(prog) ==>
          old(search.budget) - search.budget + Runs(stack) <= 2 * (|seen| - |seen0|) + Runs(stack0)
        decreases search.budget
      {
        GoingIs(q, seen, stack, Some(at), caps[..], found);
        AtInst(q.t, at);
        if search.budget == 0 { return Overflow, stack, found, seen; }
        search.budget := search.budget - 1;
        if visited != null {
          var added := visited.Insert(at.pc, at.pos);
          if !added {
            GoingPruned(q, seen, stack, at, caps[..], found);
            return;
          }
          OneMoreSeen(seen, at);
        }
        if prog[at.pc] == Match {
          GoingMatched(q, seen, stack, at, caps[..], found);
          seen := seen + {at};
          found := found + [at.pos];
          GoingIs(q, seen, stack, None, caps[..], found);
          return;
        }
        ghost var held := caps[..];
        NoLookAt(prog, at);
        var stack', next;
        outcome, stack', next := Dispatch(prog, search, at, caps, stack, q.t);
        if outcome == Overflow { SeenMore(q.t, seen, at); seen := seen + {at}; return; }
        GoingOn(q, seen, stack, at, held, found, stack', caps[..], next);
        GoingIs(q, seen + {at}, stack', next, caps[..], found);
        seen := seen + {at};
        stack := stack';
        if next == None { return; }
        at := next.value;
      }
    }

    /** What a search from `start` is asked. */
    ghost function QuestOf(prog: seq<Inst>, s: Subject, visited: Visited?, start: nat, origin: seq<Option<nat>>, nodes: seq<Node>, sl: nat): (q: Quest)
      requires Valid() && Unit(Img(), prog, nodes, groups, sl) && start <= |s.text|
      requires visited != null ==>
        visited.Valid() && visited.insts == |prog| && visited.width == |s.text| + 1 && Based(TaskOf(s, prog, nodes, sl), visited.marked)
      reads visited
      ensures q.t == TaskOf(s, prog, nodes, sl) && q.t.s == s && q.t.prog == prog && q.nodes == nodes && q.start == start
      ensures q.before == (if visited == null then {} else visited.marked) && q.origin == origin && Based(q.t, q.before)
      ensures Searching(q, prog, s, visited, q.before)
      ensures q.t.sl == sl && q.t.sh == sl + SeqMarks(nodes) && q.t.base == 2 * (groups + 1)
    {
      hide Posed, Frontier, Linked, Unit, Safe, SeqMarks;
      var before := if visited == null then {} else visited.marked;
      var q := Quest(TaskOf(s, prog, nodes, sl), nodes, groups, start, Safe(s, prog, nodes, start), before, origin);
      QuestIsPosed(q);
      EmptyFrontier(q.t);
      q
    }

    /**
     Follow every path of `prog` from `start` in priority order and collect the
     positions at which it matches; with `first`, stop at the first one.
     */
    method Explore(prog: seq<Inst>, search: Search, start: nat, caps: array<Option<nat>>, visited: Visited?, first: bool,
                   ghost nodes: seq<Node>, ghost sl: nat)
      returns (outcome: Outcome, found: seq<nat>)
      requires Valid() && Unit(Img(), prog, nodes, groups, sl) && start <= |search.s.text|
      requires sl + SeqMarks(nodes) <= caps.Length && 2 * (groups + 1) <= caps.Length
      requires forall k :: sl <= k < sl + SeqMarks(nodes) ==> caps[k] == None
      requires visited != null ==>
        && visited.Valid() && visited.insts == |prog| && visited.width == |search.s.text| + 1
        && Based(TaskOf(search.s, prog, nodes, sl), visited.marked)
      modifies search, caps
      modifies if visited == null then {} else {visited}
      ensures search.budget <= old(search.budget)
      ensures outcome == Overflow ==> search.budget == 0
      ensures visited != null ==> visited.Valid() && forall c :: c in visited.marked ==> c.pc < |prog| && c.pos <= |search.s.text|
      ensures visited != null && NoLooks(prog) ==>
        old(search.budget) - search.budget <= 2 * (|visited.marked| - |old(visited.marked)|) + 1
      ensures outcome == Done ==> forall j :: j in found ==> MatchesSeq(search.s, nodes, start, j)
      ensures outcome == Done && visited != null ==>
        && old(visited.marked) <= visited.marked
        && forall j :: j in found <==> Config(|prog| - 1, j) in visited.marked && Config(|prog| - 1, j) !in old(visited.marked)
      ensures outcome == Done && !(first && found != []) ==>
        && caps[..] == old(caps[..])
        && (forall j :: MatchesSeq(search.s, nodes, start, j) ==>
             j in found || (visited != null && Config(|prog| - 1, j) in old(visited.marked)))
        && (visited != null ==> Based(TaskOf(search.s, prog, nodes, sl), visited.marked))
      decreases search.budget, 1
    {
      hide *;
      ghost var seen := if visited == null then {} else visited.marked;
      ghost var q := QuestOf(prog, search.s, visited, start, caps[..], nodes, sl);
      SearchingIs(q, prog, search.s, visited, seen);
      var stack := [Run(Config(0, start))];
      found := [];
      outcome := Done;
      GoingStart(q, stack, found);
      while stack != []
        invariant Searching(q, prog, search.s, visited, seen) && Going(q, seen, stack, None, caps[..], found)
        invariant (first ==> found == []) && outcome == Done && search.budget <= old(search.budget)
        invariant visited != null && NoLooks(prog) ==>
          old(search.budget) - search.budget + Runs(stack) <= 2 * (|seen| - |q.before|) + 1
        decreases search.budget, |stack|
      {
        var frame := stack[|stack| - 1];
        if frame.Restore? {
          GoingRestore(q, seen, stack, caps[..], found);
          ghost var held := caps[..];
          caps[frame.slot] := frame.value;
          assert caps[..] == held[frame.slot := frame.value];
          stack := stack[..|stack| - 1];
        } else {
          GoingRun(q, seen, stack, caps[..], found);
          outcome, stack, found, seen := Follow(prog, search, frame.at, caps, visited, first, stack[..|stack| - 1], found, q, seen);
          SearchingIs(q, prog, search.s, visited, seen);
          if outcome == Overflow { return; }
          if first && found != [] {
            GoingIs(q, seen, stack, None, caps[..], found);
            return;
          }
        }
      }
      SearchingIs(q, prog, search.s, visited, seen);
      GoingIs(q, seen, stack, None, caps[..], found);
      GoingDone(q, seen, stack, caps[..], found);
    }
  }

  lemma AtInst(t: Task, at: Config)
    requires InBounds(t, at)
    ensures at.pc < |t.prog| && at.pos <= |t.s.text|
  {
  }

  lemma QuestIsPosed(q: Quest)
    requires Unit(q.t.img, q.t.prog, q.nodes, q.groups, q.t.sl) && q.safe == Safe(q.t.s, q.t.prog, q.nodes, q.start)
    requires q.t == Task(q.t.s, q.t.img, q.t.prog, 2 * (q.groups + 1), q.t.sl, q.t.sl + SeqMarks(q.nodes))
    ensures Posed(q) && Linked(q.t)
  {
    hide Unit, Safe, Linked, ClosedUnder, SeqMarks;
    UnitIsLinked(q.t.s, q.t.img, q.t.prog, q.nodes, q.groups, q.t.sl);
    SafeIsClosed(q.t, q.nodes, q.groups, q.start);
  }

  /** A program that asks about no sub-program. */
  ghost predicate NoLooks(prog: seq<Inst>) {
    forall pc :: 0 <= pc < |prog| ==> !prog[pc].Ahead?
  }

  lemma StartFrontier(t: Task, safe: iset<Config>, before: set<Config>, start: nat, caps: seq<Option<nat>>)
    requires Linked(t) && start <= |t.s.text| && Config(0, start) in safe
    requires Based(t, before)
    requires t.sh <= |caps| && t.base <= |caps| && forall k :: t.sl <= k < t.sh ==> caps[k] == None
    ensures Frontier(t, safe, before, before, [Run(Config(0, start))], None)
    ensures Slots(t, before, [Run(Config(0, start))], caps)
    ensures Undone([Run(Config(0, start))], caps) == caps && Runs([Run(Config(0, start))]) == 1
  {
    var stack := [Run(Config(0, start))];
    assert stack[..0] == [];
    forall a | a in before ensures Covered(t, before, stack, None, a) {
      assert Covered(t, before, [], None, a);
    }
  }
}
