/**
 The invariant of the search: which configurations it has followed, which are
 still waiting on its stack, and what its undo log holds.

 Everything here is about values; `AreSearch` keeps the invariant over the real
 stack, capture array and visited table.
 */
module AreFrontier {
  import opened Wrappers
  import opened AreSyntax
  import opened AreProgram
  import opened AreSteps
  import opened AreTidy

  /** A stack frame: a configuration to follow, or a slot to put back. */
  datatype Frame = Run(at: Config) | Restore(slot: nat, value: Option<nat>)

  /** A program and the subject it searches. */
  datatype Task = Task(s: Subject, img: Image, prog: seq<Inst>, base: nat, sl: nat, sh: nat)

  ghost predicate Linked(t: Task) {
    && t.prog != []
    && t.prog[|t.prog| - 1] == Match
    && Tidy(t.img, t.prog, 0, |t.prog| - 1, t.base, t.sl, t.sh)
  }

  ghost predicate Steps(t: Task, a: Config, b: Config) {
    CanStep(t.s, t.img, t.prog, a, b)
  }

  ghost predicate InBounds(t: Task, c: Config) {
    c.pc < |t.prog| && c.pos <= |t.s.text|
  }

  ghost predicate ClosedUnder(t: Task, safe: iset<Config>) {
    forall a, b :: a in safe && Steps(t, a, b) ==> b in safe
  }

  /** Waiting to be followed. */
  ghost predicate Todo(stack: seq<Frame>, cur: Option<Config>, c: Config) {
    Run(c) in stack || cur == Some(c)
  }

  /** A configuration at a `Mark` comes from the `Split` just before it. */
  ghost predicate Guarded(t: Task, seen: set<Config>, c: Config) {
    c.pc < |t.prog| && t.prog[c.pc].Mark? ==> c.pc > 0 && Config(c.pc - 1, c.pos) in seen
  }

  ghost predicate Covered(t: Task, seen: set<Config>, stack: seq<Frame>, cur: Option<Config>, a: Config) {
    Spared(t.prog, seen, a) || forall b :: Steps(t, a, b) ==> b in seen || Todo(stack, cur, b)
  }

  ghost predicate Frontier(t: Task, safe: iset<Config>, before: set<Config>, seen: set<Config>, stack: seq<Frame>, cur: Option<Config>) {
    && before <= seen
    && (forall a :: a in seen ==> Covered(t, seen, stack, cur, a))
    && (forall a :: a in seen ==> InBounds(t, a) && (a in before || a in safe))
    && (forall c :: Todo(stack, cur, c) ==> c in safe && InBounds(t, c) && Guarded(t, seen, c))
  }

  /** A search may start from the pairs that earlier ones have marked. */
  ghost predicate Based(t: Task, marked: set<Config>) {
    Frontier(t, iset{}, marked, marked, [], None)
  }

  // ----- the slots of the loops

  ghost predicate Owns(t: Task, slot: nat) {
    exists p :: 0 <= p < |t.prog| && t.prog[p] == Mark(slot)
  }

  /** A loop slot holds a position at which its loop's `Split` has been followed. */
  ghost predicate SlotSeen(t: Task, seen: set<Config>, slot: nat, v: Option<nat>) {
    v.Some? ==> forall p :: 0 < p < |t.prog| && t.prog[p] == Mark(slot) ==> Config(p - 1, v.value) in seen
  }

  ghost predicate Slots(t: Task, seen: set<Config>, stack: seq<Frame>, caps: seq<Option<nat>>) {
    && t.sh <= |caps| && t.base <= |caps|
    && (forall k :: t.sl <= k < t.sh ==> if Owns(t, k) then SlotSeen(t, seen, k, caps[k]) else caps[k] == None)
    && (forall f :: f in stack && f.Restore? ==>
        f.slot < |caps| && (f.slot < t.base || (t.sl <= f.slot < t.sh && Owns(t, f.slot) && SlotSeen(t, seen, f.slot, f.value))))
  }

  // ----- the undo log

  function Put(caps: seq<Option<nat>>, slot: nat, v: Option<nat>): seq<Option<nat>> {
    if slot < |caps| then caps[slot := v] else caps
  }

  /** The captures once every frame of the stack has been popped. */
  function Undone(stack: seq<Frame>, caps: seq<Option<nat>>): seq<Option<nat>>
    decreases |stack|
  {
    if stack == [] then caps
    else
      var top := stack[|stack| - 1];
      Undone(stack[..|stack| - 1], if top.Restore? then Put(caps, top.slot, top.value) else caps)
  }

  /** How many frames are configurations to follow. */
  function Runs(stack: seq<Frame>): nat
    decreases |stack|
  {
    if stack == [] then 0
    else Runs(stack[..|stack| - 1]) + if stack[|stack| - 1].Run? then 1 else 0
  }

  lemma PushFrame(stack: seq<Frame>, f: Frame, caps: seq<Option<nat>>)
    ensures Undone(stack + [f], caps) == Undone(stack, if f.Restore? then Put(caps, f.slot, f.value) else caps)
    ensures Runs(stack + [f]) == Runs(stack) + if f.Run? then 1 else 0
  {
    assert (stack + [f])[..|stack + [f]| - 1] == stack;
  }

  // ----- what following one instruction does

  /**
   From `a`, an instruction other than `Match` left the stack, the captures and
   the next configuration to follow like this.
   */
  ghost predicate Dispatched(t: Task, a: Config, caps: seq<Option<nat>>, stack: seq<Frame>, caps': seq<Option<nat>>, stack': seq<Frame>, next: Option<Config>)
    requires a.pc < |t.prog|
  {
    var inst := t.prog[a.pc];
    if inst.Split? then
      caps' == caps && stack' == stack + [Run(Config(inst.second, a.pos))] && next == Some(Config(inst.first, a.pos))
    else if inst.Save? || inst.Mark? then
      && inst.slot < |caps|
      && caps' == caps[inst.slot := Some(a.pos)]
      && stack' == stack + [Restore(inst.slot, caps[inst.slot])]
      && next == Some(Config(a.pc + 1, a.pos))
    else
      && caps' == caps && stack' == stack
      && (next.Some? ==> Steps(t, a, next.value))
      && (forall b :: Steps(t, a, b) ==> next == Some(b) || (inst.Check? && inst.slot < |caps| && caps[inst.slot] == Some(a.pos)))
  }

  /** A refused `Check` is spared: its loop has been followed from this position. */
  lemma RefusedIsSpared(t: Task, seen: set<Config>, stack: seq<Frame>, caps: seq<Option<nat>>, a: Config)
    requires Linked(t) && Slots(t, seen, stack, caps) && InBounds(t, a)
    requires t.prog[a.pc].Check? && t.prog[a.pc].slot < |caps| && caps[t.prog[a.pc].slot] == Some(a.pos)
    ensures Spared(t.prog, seen, a)
  {
    var k := t.prog[a.pc].slot;
    assert Sane(t.img, t.prog[a.pc], t.base, t.sl, t.sh);
    var p :| 0 <= p < |t.prog| && t.prog[p] == Mark(k);
    assert Paired(t.prog, 0, |t.prog| - 1, p, a.pc);
    assert SlotSeen(t, seen, k, caps[k]);
  }

  /** A step leads inside the program, and enters a `Mark` only from the `Split` before it. */
  lemma StepIsTidy(t: Task, seen: set<Config>, a: Config, b: Config)
    requires Linked(t) && InBounds(t, a) && a in seen && Steps(t, a, b)
    ensures InBounds(t, b) && Guarded(t, seen, b)
  {
    assert b.pc in Targets(t.prog, a.pc);
    assert Enters(t.prog, 0, |t.prog| - 1, a.pc, b.pc);
  }

  lemma SplitSteps(t: Task, a: Config)
    requires InBounds(t, a) && t.prog[a.pc].Split?
    ensures forall b :: Steps(t, a, b) <==> b == Config(t.prog[a.pc].first, a.pos) || b == Config(t.prog[a.pc].second, a.pos)
  {
  }

  lemma SlotSteps(t: Task, a: Config)
    requires InBounds(t, a) && (t.prog[a.pc].Save? || t.prog[a.pc].Mark?)
    ensures forall b :: Steps(t, a, b) <==> b == Config(a.pc + 1, a.pos)
  {
  }

  /** Following one instruction keeps the frontier. */
  lemma FrontierStep(t: Task, safe: iset<Config>, before: set<Config>, seen: set<Config>, a: Config,
                     stack: seq<Frame>, caps: seq<Option<nat>>, stack': seq<Frame>, caps': seq<Option<nat>>, next: Option<Config>)
    requires Linked(t) && ClosedUnder(t, safe)
    requires Frontier(t, safe, before, seen, stack, Some(a)) && Slots(t, seen, stack, caps)
    requires InBounds(t, a) && Dispatched(t, a, caps, stack, caps', stack', next)
    ensures Frontier(t, safe, before, seen + {a}, stack', next)
    ensures next.Some? ==> InBounds(t, next.value)
  {
    var seen' := seen + {a};
    var inst := t.prog[a.pc];
    hide Steps, Linked, Slots, Spared, InBounds, Guarded;
    assert Todo(stack, Some(a), a);
    if next.Some? { assert Todo(stack', next, next.value); }
    if inst.Split? { SplitSteps(t, a); }
    if inst.Save? || inst.Mark? { SlotSteps(t, a); }
    forall b | Steps(t, a, b)
      ensures Todo(stack', next, b) || Spared(t.prog, seen', a)
    {
      if inst.Split? {
        assert stack'[|stack|] == Run(Config(inst.second, a.pos));
      } else if !(inst.Save? || inst.Mark?) && next != Some(b) {
        RefusedIsSpared(t, seen, stack, caps, a);
        SparedGrows(t.prog, seen, seen', a);
      }
    }
    forall c | Todo(stack', next, c)
      ensures c in safe && InBounds(t, c) && Guarded(t, seen', c)
    {
      if Todo(stack, Some(a), c) {
        GuardedGrows(t, seen, seen', c);
      } else {
        assert Steps(t, a, c);
        StepIsTidy(t, seen', a, c);
      }
    }
    forall c | c in seen' ensures Covered(t, seen', stack', next, c) {
      if c == a {
      } else {
        assert Covered(t, seen, stack, Some(a), c);
        if Spared(t.prog, seen, c) {
          SparedGrows(t.prog, seen, seen', c);
        }
      }
    }
  }

  lemma SparedGrows(prog: seq<Inst>, seen: set<Config>, seen': set<Config>, a: Config)
    requires seen <= seen' && Spared(prog, seen, a)
    ensures Spared(prog, seen', a)
  {
  }

  lemma GuardedGrows(t: Task, seen: set<Config>, seen': set<Config>, c: Config)
    requires seen <= seen' && Guarded(t, seen, c)
    ensures Guarded(t, seen', c)
  {
  }

  /** Following one instruction keeps the undo log: unwinding it still gives the same captures. */
  lemma LogStep(t: Task, a: Config, stack: seq<Frame>, caps: seq<Option<nat>>, stack': seq<Frame>, caps': seq<Option<nat>>, next: Option<Config>)
    requires a.pc < |t.prog| && Dispatched(t, a, caps, stack, caps', stack', next)
    ensures Undone(stack', caps') == Undone(stack, caps)
    ensures Runs(stack') == Runs(stack) + if t.prog[a.pc].Split? then 1 else 0
  {
    var inst := t.prog[a.pc];
    if inst.Split? {
      PushFrame(stack, Run(Config(inst.second, a.pos)), caps);
    } else if inst.Save? || inst.Mark? {
      PushFrame(stack, Restore(inst.slot, caps[inst.slot]), caps');
      assert Put(caps', inst.slot, caps[inst.slot]) == caps;
    }
  }

  /** Following one instruction keeps the slots. */
  lemma SlotsStep(t: Task, safe: iset<Config>, before: set<Config>, seen: set<Config>, a: Config,
                  stack: seq<Frame>, caps: seq<Option<nat>>, stack': seq<Frame>, caps': seq<Option<nat>>, next: Option<Config>)
    requires Linked(t)
    requires Frontier(t, safe, before, seen, stack, Some(a)) && Slots(t, seen, stack, caps)
    requires InBounds(t, a) && Dispatched(t, a, caps, stack, caps', stack', next)
    ensures Slots(t, seen + {a}, stack', caps')
  {
    var seen' := seen + {a};
    var inst := t.prog[a.pc];
    if inst.Mark? {
      assert Todo(stack, Some(a), a);
      MarkSlot(t, seen, a, stack, caps);
    } else if inst.Save? {
      assert Sane(t.img, inst, t.base, t.sl, t.sh);
    } else {
      assert forall f :: f in stack' && f.Restore? ==> f in stack;
    }
  }

  lemma MarkSlot(t: Task, seen: set<Config>, a: Config, stack: seq<Frame>, caps: seq<Option<nat>>)
    requires Linked(t) && Slots(t, seen, stack, caps)
    requires InBounds(t, a) && t.prog[a.pc].Mark? && Guarded(t, seen, a)
    ensures
      var slot := t.prog[a.pc].slot;
      slot < |caps| && Slots(t, seen + {a}, stack + [Restore(slot, caps[slot])], caps[slot := Some(a.pos)])
  {
    var seen', slot := seen + {a}, t.prog[a.pc].slot;
    assert Sane(t.img, t.prog[a.pc], t.base, t.sl, t.sh);
    assert Owns(t, slot);
    forall p | 0 < p < |t.prog| && t.prog[p] == Mark(slot) ensures Config(p - 1, a.pos) in seen' {
      OneMark(t, p, a.pc);
    }
  }

  /** A slot has one `Mark`. */
  lemma OneMark(t: Task, p: nat, q: nat)
    requires Linked(t) && p < |t.prog| && q < |t.prog|
    requires t.prog[p].Mark? && t.prog[q] == t.prog[p]
    ensures p == q
  {
    assert Paired(t.prog, 0, |t.prog| - 1, p, q);
  }

  // ----- taking frames off the stack

  lemma PopRun(t: Task, safe: iset<Config>, before: set<Config>, seen: set<Config>, stack: seq<Frame>, caps: seq<Option<nat>>)
    requires Frontier(t, safe, before, seen, stack, None) && Slots(t, seen, stack, caps)
    requires stack != [] && stack[|stack| - 1].Run?
    ensures
      var rest, c := stack[..|stack| - 1], stack[|stack| - 1].at;
      && Frontier(t, safe, before, seen, rest, Some(c)) && Slots(t, seen, rest, caps) && InBounds(t, c)
      && Undone(rest, caps) == Undone(stack, caps) && Runs(rest) + 1 == Runs(stack)
  {
    hide Steps, InBounds, Guarded, Spared;
    var rest, c := stack[..|stack| - 1], stack[|stack| - 1].at;
    assert stack == rest + [Run(c)];
    forall x ensures Todo(rest, Some(c), x) <==> Todo(stack, None, x) {
    }
    forall a | a in seen ensures Covered(t, seen, rest, Some(c), a) {
      assert Covered(t, seen, stack, None, a);
    }
    assert Todo(stack, None, c);
  }

  lemma PopRestore(t: Task, safe: iset<Config>, before: set<Config>, seen: set<Config>, stack: seq<Frame>, caps: seq<Option<nat>>)
    requires Frontier(t, safe, before, seen, stack, None) && Slots(t, seen, stack, caps)
    requires Linked(t) && stack != [] && stack[|stack| - 1].Restore?
    ensures
      var rest, f := stack[..|stack| - 1], stack[|stack| - 1];
      && f.slot < |caps|
      && Frontier(t, safe, before, seen, rest, None) && Slots(t, seen, rest, caps[f.slot := f.value])
      && Undone(rest, caps[f.slot := f.value]) == Undone(stack, caps) && Runs(rest) == Runs(stack)
  {
    hide Steps, InBounds, Guarded, Spared;
    var rest, f := stack[..|stack| - 1], stack[|stack| - 1];
    assert stack == rest + [f];
    assert f in stack;
    forall x ensures Todo(rest, None, x) <==> Todo(stack, None, x) {
    }
    forall a | a in seen ensures Covered(t, seen, rest, None, a) {
      assert Covered(t, seen, stack, None, a);
    }
  }

  /** A configuration already followed is not followed again. */
  lemma Prune(t: Task, safe: iset<Config>, before: set<Config>, seen: set<Config>, stack: seq<Frame>, a: Config)
    requires Frontier(t, safe, before, seen, stack, Some(a)) && a in seen
    ensures Frontier(t, safe, before, seen, stack, None)
  {
    hide Steps, InBounds, Guarded, Spared;
    forall x | Todo(stack, None, x) ensures Todo(stack, Some(a), x) {
    }
    forall c | c in seen ensures Covered(t, seen, stack, None, c) {
      assert Covered(t, seen, stack, Some(a), c);
    }
  }

  /** `Match` leads nowhere. */
  lemma FollowMatch(t: Task, safe: iset<Config>, before: set<Config>, seen: set<Config>, stack: seq<Frame>, caps: seq<Option<nat>>, a: Config)
    requires Frontier(t, safe, before, seen, stack, Some(a)) && Slots(t, seen, stack, caps)
    requires Linked(t) && InBounds(t, a) && t.prog[a.pc] == Match
    ensures a in safe && a.pc == |t.prog| - 1
    ensures Frontier(t, safe, before, seen + {a}, stack, None) && Slots(t, seen + {a}, stack, caps)
  {
    var seen' := seen + {a};
    assert Todo(stack, Some(a), a);
    assert a.pc < |t.prog| - 1 ==> Sane(t.img, t.prog[a.pc], t.base, t.sl, t.sh);
    forall x | Todo(stack, None, x) ensures x in safe && InBounds(t, x) && Guarded(t, seen', x) {
      assert Todo(stack, Some(a), x);
      GuardedGrows(t, seen, seen', x);
    }
    forall c | c in seen' ensures Covered(t, seen', stack, None, c) {
      if c != a {
        assert Covered(t, seen, stack, Some(a), c);
        if Spared(t.prog, seen, c) { SparedGrows(t.prog, seen, seen', c); }
      }
    }
  }

  /** A search that has ended leaves a set the next search can start from. */
  lemma Rebase(t: Task, safe: iset<Config>, before: set<Config>, seen: set<Config>)
    requires Frontier(t, safe, before, seen, [], None)
    ensures Based(t, seen)
  {
  }

  lemma NothingToUndo(caps: seq<Option<nat>>)
    ensures Undone([], caps) == caps
  {
  }

  lemma EmptyFrontier(t: Task)
    ensures Based(t, {})
  {
  }
}
