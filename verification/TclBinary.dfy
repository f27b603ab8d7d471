/**
 `binary format`: one pass that resolves the counts and finds how long the result
 is, and another that writes the fields into a buffer of that length; and the
 integers its numeric fields store.
 */
module TclBinary {
  import opened Wrappers
  import opened TextCode

  const MAX_RESULT_BYTES: nat := 2_147_483_648

  datatype Command =
    | Text(pad: byte)
    | Bits(low: bool)
    | Hex(low: bool)
    | Null
    | Back
    | To
    | Number(size: Size, big: bool)
    | Unknown

  /** The bytes of a number. */
  type Size = n: nat | 0 < n witness 1

  datatype Count = One | All | Num(n: nat)

  datatype Spec = Spec(cmd: Command, count: Count)

  /** An argument: its characters, and what it is as a list of integers and as one. */
  datatype Arg = Arg(text: seq<nat>, items: Option<seq<Option<int>>>, whole: Option<int>)

  datatype FormatError = NotEnough | BadField | StarWithNull | MissingCount | NotAList | TooFew | TooLarge | BadBits | BadHex | BadInteger

  /** A field with its count resolved and its argument found. */
  datatype Step = Step(cmd: Command, count: nat, arg: nat, scalar: bool)

  predicate Consumes(cmd: Command) {
    cmd != Null && cmd != Back && cmd != To
  }

  // ----- the cursor

  /** Where item `k` of a field is. */
  function Place(k: nat, size: nat): nat {
    k * size
  }

  lemma PlaceNext(k: nat, size: nat)
    ensures Place(0, size) == 0 && Place(k + 1, size) == Place(k, size) + size
  {
  }

  lemma {:induction false} PlaceBelow(k: nat, n: nat, size: nat)
    requires k < n
    ensures Place(k, size) + size <= Place(n, size)
    decreases n
  {
    hide Place;
    PlaceNext(n - 1, size);
    if k < n - 1 { PlaceBelow(k, n - 1, size); }
  }

  function Width(s: Step): nat {
    match s.cmd
    case Text(_) => s.count
    case Bits(_) => (s.count + 7) / 8
    case Hex(_) => (s.count + 1) / 2
    case Null => s.count
    case Number(size, _) => Place(s.count, size)
    case _ => 0
  }

  function After(s: Step, at: nat): nat {
    match s.cmd
    case Back => if s.count > at then 0 else at - s.count
    case To => s.count
    case _ => at + Width(s)
  }

  /** Where the cursor is after all the steps. */
  function Cursor(steps: seq<Step>): nat {
    if steps == [] then 0 else After(steps[|steps| - 1], Cursor(steps[..|steps| - 1]))
  }

  /** The furthest the cursor has been. */
  function HighWater(steps: seq<Step>): (h: nat)
    ensures Cursor(steps) <= h
  {
    if steps == [] then 0
    else
      var before := HighWater(steps[..|steps| - 1]);
      if Cursor(steps) > before then Cursor(steps) else before
  }

  lemma {:induction false} HighWaterBounds(steps: seq<Step>, k: nat)
    requires k <= |steps|
    ensures Cursor(steps[..k]) <= HighWater(steps)
    decreases |steps|
  {
    if k == |steps| {
      assert steps[..k] == steps;
    } else {
      HighWaterBounds(steps[..|steps| - 1], k);
      assert steps[..|steps| - 1][..k] == steps[..k];
    }
  }

  /** The high-water mark is where the cursor has been, so no shorter buffer would do. */
  lemma {:induction false} HighWaterIsReached(steps: seq<Step>) returns (k: nat)
    ensures k <= |steps| && Cursor(steps[..k]) == HighWater(steps)
    decreases |steps|
  {
    if steps == [] {
      k := 0;
      assert steps[..0] == [];
    } else {
      var front := steps[..|steps| - 1];
      k := HighWaterIsReached(front);
      assert front[..k] == steps[..k];
      if Cursor(steps) > HighWater(front) {
        k := |steps|;
        assert steps[..k] == steps;
      }
    }
  }

  // ----- the first pass

  /** A step its argument can fill. */
  predicate Fillable(s: Step, args: seq<Arg>) {
    Consumes(s.cmd) ==>
      && s.cmd != Unknown && s.arg < |args|
      && (s.cmd.Number? ==> if s.scalar then s.count == 1 else args[s.arg].items.Some? && s.count <= |args[s.arg].items.value|)
  }

  /** How many of the fields take an argument. */
  function Taken(specs: seq<Spec>): nat {
    if specs == [] then 0 else Taken(specs[..|specs| - 1]) + if Consumes(specs[|specs| - 1].cmd) then 1 else 0
  }

  /** The step of a field after the steps of those before it. */
  ghost predicate Resolved(spec: Spec, before: seq<Step>, taken: nat, s: Step, args: seq<Arg>) {
    && s.cmd == spec.cmd && s.arg == taken && s.scalar == (spec.count == One) && Fillable(s, args)
    && !(s.cmd == To && spec.count == One) && !(s.cmd == Null && spec.count == All)
    && s.count ==
      match spec.count
      case One => 1
      case Num(n) => n
      case All =>
        if spec.cmd == Back then Cursor(before)
        else if spec.cmd == To then HighWater(before)
        else if s.arg >= |args| then 0
        else if spec.cmd.Number? then (if args[s.arg].items.Some? then |args[s.arg].items.value| else 0)
        else |args[s.arg].text|
  }

  /** `plan` has a step for every field, and a value of Tcl can hold the result. */
  ghost predicate Planned(specs: seq<Spec>, plan: seq<Step>, args: seq<Arg>) {
    && |plan| == |specs| && HighWater(plan) <= MAX_RESULT_BYTES
    && forall k :: 0 <= k < |plan| ==> Resolved(specs[k], plan[..k], Taken(specs[..k]), plan[k], args)
  }

  /** Why a field has no step, looking at its argument's shape only. */
  function Refused(spec: Spec, taken: nat, args: seq<Arg>): Option<FormatError> {
    if Consumes(spec.cmd) && taken >= |args| then Some(if spec.cmd == Unknown then BadField else NotEnough)
    else if spec.cmd == Unknown then Some(BadField)
    else if spec.cmd == To && spec.count == One then Some(MissingCount)
    else if spec.cmd == Null && spec.count == All then Some(StarWithNull)
    else if spec.cmd.Number? && spec.count != One && args[taken].items.None? then Some(NotAList)
    else if spec.cmd.Number? && spec.count.Num? && |args[taken].items.value| < spec.count.n then Some(TooFew)
    else None
  }

  function CountOf(spec: Spec, before: seq<Step>, taken: nat, args: seq<Arg>): nat
    requires Refused(spec, taken, args).None?
  {
    match spec.count
    case One => 1
    case Num(n) => n
    case All =>
      if spec.cmd == Back then Cursor(before)
      else if spec.cmd == To then HighWater(before)
      else if spec.cmd.Number? then |args[taken].items.value|
      else |args[taken].text|
  }

  /** A field that is not refused has one step. */
  lemma ResolvedIs(spec: Spec, before: seq<Step>, taken: nat, s: Step, args: seq<Arg>)
    ensures Resolved(spec, before, taken, s, args) <==>
      Refused(spec, taken, args).None? && s == Step(spec.cmd, CountOf(spec, before, taken, args), taken, spec.count == One)
  {
    hide Cursor, HighWater;
  }

  /** The steps of the fields, or what is wrong with the first that has none. */
  function PlanOf(specs: seq<Spec>, args: seq<Arg>): (r: Result<seq<Step>, FormatError>)
    ensures r.Ok? ==> |r.value| == |specs|
  {
    if specs == [] then Ok([])
    else
      var front, last := specs[..|specs| - 1], specs[|specs| - 1];
      var before, taken := PlanOf(front, args), Taken(front);
      if before.Err? then before
      else if Refused(last, taken, args).Some? then Err(Refused(last, taken, args).value)
      else
        var plan := before.value + [Step(last.cmd, CountOf(last, before.value, taken, args), taken, last.count == One)];
        if HighWater(plan) > MAX_RESULT_BYTES then Err(TooLarge) else Ok(plan)
  }

  /** The steps given to the fields are steps for them... */
  lemma {:induction false} PlanIsPlanned(specs: seq<Spec>, args: seq<Arg>)
    requires PlanOf(specs, args).Ok?
    ensures Planned(specs, PlanOf(specs, args).value, args)
    decreases |specs|
  {
    if specs != [] {
      var n := |specs| - 1;
      PlanIsPlanned(specs[..n], args);
      PlanStep(specs, args, n);
      assert specs[..n + 1] == specs;
      hide Planned, Resolved, PlanOf, Taken, HighWater, CountOf, Refused;
      var plan, before := PlanOf(specs, args).value, PlanOf(specs[..n], args).value;
      assert plan[..n] == before;
      ResolvedIs(specs[n], before, Taken(specs[..n]), plan[n], args);
      PlannedOneMore(specs, plan, args);
    }
  }

  /** ...and the only ones: fields that can be given steps are. */
  lemma {:induction false} PlanIsTheOnly(specs: seq<Spec>, plan: seq<Step>, args: seq<Arg>)
    requires Planned(specs, plan, args)
    ensures PlanOf(specs, args) == Ok(plan)
    decreases |specs|
  {
    if specs != [] {
      var n := |specs| - 1;
      assert |plan| == n + 1 && HighWater(plan) <= MAX_RESULT_BYTES;
      hide Planned, Resolved, PlanOf, Taken, HighWater, CountOf, Refused;
      PlannedFront(specs, plan, args);
      PlanIsTheOnly(specs[..n], plan[..n], args);
      ResolvedIs(specs[n], plan[..n], Taken(specs[..n]), plan[n], args);
      PlanStep(specs, args, n);
      assert specs[..n + 1] == specs && plan == plan[..n] + [plan[n]];
    }
  }

  lemma PlannedFront(specs: seq<Spec>, plan: seq<Step>, args: seq<Arg>)
    requires specs != [] && Planned(specs, plan, args)
    ensures Planned(specs[..|specs| - 1], plan[..|specs| - 1], args)
    ensures
      var n := |specs| - 1;
      Resolved(specs[n], plan[..n], Taken(specs[..n]), plan[n], args)
  {
    hide Resolved, HighWater;
    var n := |specs| - 1;
    HighWaterGrows(plan, n);
    forall k | 0 <= k < n ensures Resolved(specs[..n][k], plan[..n][..k], Taken(specs[..n][..k]), plan[..n][k], args) {
      assert plan[..n][..k] == plan[..k] && specs[..n][..k] == specs[..k];
    }
  }

  lemma PlannedOneMore(specs: seq<Spec>, plan: seq<Step>, args: seq<Arg>)
    requires |plan| == |specs| > 0 && HighWater(plan) <= MAX_RESULT_BYTES
    requires Planned(specs[..|specs| - 1], plan[..|specs| - 1], args)
    requires
      var n := |specs| - 1;
      Resolved(specs[n], plan[..n], Taken(specs[..n]), plan[n], args)
    ensures Planned(specs, plan, args)
  {
    hide Resolved, HighWater;
    var n := |specs| - 1;
    forall k | 0 <= k < n ensures Resolved(specs[k], plan[..k], Taken(specs[..k]), plan[k], args) {
      assert plan[..n][..k] == plan[..k] && specs[..n][..k] == specs[..k];
      assert plan[..n][k] == plan[k];
    }
  }

  /** The first field that is refused is the error of the whole. */
  lemma {:induction false} FirstRefusal(specs: seq<Spec>, args: seq<Arg>, k: nat)
    requires k <= |specs| && PlanOf(specs[..k], args).Err?
    ensures PlanOf(specs, args) == PlanOf(specs[..k], args)
    decreases |specs|
  {
    if k == |specs| {
      assert specs[..k] == specs;
    } else {
      assert specs[..|specs| - 1][..k] == specs[..k];
      FirstRefusal(specs[..|specs| - 1], args, k);
    }
  }

  /** What one more field does to the plan. */
  lemma PlanStep(specs: seq<Spec>, args: seq<Arg>, k: nat)
    requires k < |specs| && PlanOf(specs[..k], args).Ok?
    ensures Taken(specs[..k + 1]) == Taken(specs[..k]) + if Consumes(specs[k].cmd) then 1 else 0
    ensures
      var before, taken := PlanOf(specs[..k], args).value, Taken(specs[..k]);
      PlanOf(specs[..k + 1], args) ==
        if Refused(specs[k], taken, args).Some? then Err(Refused(specs[k], taken, args).value)
        else
          var plan := before + [Step(specs[k].cmd, CountOf(specs[k], before, taken, args), taken, specs[k].count == One)];
          if HighWater(plan) > MAX_RESULT_BYTES then Err(TooLarge) else Ok(plan)
  {
    assert specs[..k + 1][..k] == specs[..k];
  }

  /** Resolve the counts, find the arguments and compute the length; values are not looked at. */
  method PlanFormat(specs: seq<Spec>, args: seq<Arg>) returns (r: Result<seq<Step>, FormatError>, length: nat)
    ensures r == PlanOf(specs, args)
    ensures r.Ok? ==> length == HighWater(r.value)
  {
    hide PlanOf, Taken;
    var plan: seq<Step> := [];
    var at, arg := 0, 0;
    length := 0;
    NothingPlanned(args);
    assert specs[..0] == [] && specs[..|specs|] == specs;
    for k := 0 to |specs|
      invariant at == Cursor(plan) && length == HighWater(plan) <= MAX_RESULT_BYTES
      invariant PlanOf(specs[..k], args) == Ok(plan) && arg == Taken(specs[..k])
    {
      PlanStep(specs, args, k);
      if PlanOf(specs[..k + 1], args).Err? { FirstRefusal(specs, args, k + 1); }
      var Spec(cmd, wanted) := specs[k];
      var consumes := Consumes(cmd);
      if consumes && arg >= |args| {
        return Err(if cmd == Unknown then BadField else NotEnough), length;
      }
      if cmd == Unknown { return Err(BadField), length; }
      var count;
      match wanted {
        case One =>
          if cmd == To { return Err(MissingCount), length; }
          count := 1;
        case Num(n) =>
          if cmd.Number? {
            if args[arg].items.None? { return Err(NotAList), length; }
            if |args[arg].items.value| < n { return Err(TooFew), length; }
          }
          count := n;
        case All =>
          if cmd == Null { return Err(StarWithNull), length; }
          if cmd == Back {
            count := at;
          } else if cmd == To {
            count := length;
          } else if cmd.Number? {
            if args[arg].items.None? { return Err(NotAList), length; }
            count := |args[arg].items.value|;
          } else {
            count := |args[arg].text|;
          }
      }
      var step := Step(cmd, count, arg, wanted == One);
      if consumes { arg := arg + 1; }
      at := After(step, at);
      assert (plan + [step])[..k] == plan;
      if at > length { length := at; }
      if length > MAX_RESULT_BYTES { return Err(TooLarge), length; }
      plan := plan + [step];
    }
    r := Ok(plan);
  }

  lemma NothingPlanned(args: seq<Arg>)
    ensures PlanOf([], args) == Ok([]) && Taken([]) == 0
  {
  }

  // ----- integers

  function Pow2(bits: nat): (p: nat)
    ensures p > 0
  {
    if bits == 0 then 1 else 2 * Pow2(bits - 1)
  }

  /** The little-endian bytes of a value reduced modulo 2 to the number of bits. */
  function LittleEndian(v: int, size: nat): (b: Bytes)
    ensures |b| == size
    decreases size
  {
    if size == 0 then [] else [v % 256] + LittleEndian(v / 256, size - 1)
  }

  function Reversed(b: Bytes): (r: Bytes)
    ensures |r| == |b| && forall k :: 0 <= k < |b| ==> r[k] == b[|b| - 1 - k]
  {
    seq(|b|, k requires 0 <= k < |b| => b[|b| - 1 - k])
  }

  function NumberBytes(v: int, size: nat, big: bool): (b: Bytes)
    ensures |b| == size
  {
    if big then Reversed(LittleEndian(v, size)) else LittleEndian(v, size)
  }

  function Unsigned(b: Bytes): nat {
    if b == [] then 0 else b[0] + 256 * Unsigned(b[1..])
  }

  /** One integer read out of a field. */
  function ReadNumber(slot: Bytes, big: bool, unsigned: bool): int {
    var bytes := if big then Reversed(slot) else slot;
    var value := Unsigned(bytes);
    var bits := 8 * |bytes|;
    if !unsigned && bits > 0 && TopSet(value, Pow2(bits - 1)) then value - Pow2(bits) else value
  }

  /** The bit of weight `half`. */
  predicate TopSet(value: nat, half: nat)
    requires half > 0
  {
    value / half % 2 == 1
  }

  lemma Pow2Step(bits: nat)
    ensures Pow2(bits + 8) == 256 * Pow2(bits)
  {
    assert Pow2(bits + 8) == 2 * Pow2(bits + 7) == 4 * Pow2(bits + 6) == 8 * Pow2(bits + 5) == 16 * Pow2(bits + 4);
    assert Pow2(bits + 4) == 2 * Pow2(bits + 3) == 4 * Pow2(bits + 2) == 8 * Pow2(bits + 1) == 16 * Pow2(bits);
  }

  /** `v` and `u` differ by a multiple of `m`. */
  ghost predicate Congruent(v: int, u: int, m: nat) {
    exists k: int :: Times(v, u, m, k)
  }

  ghost predicate Times(v: int, u: int, m: nat, k: int) {
    v == u + k * m
  }

  /** The bytes of any integer read back as the one it is congruent to in range. */
  lemma {:induction false} UnsignedReadsBack(v: int, size: nat) returns (k: int)
    ensures var u := Unsigned(LittleEndian(v, size)); u < Pow2(8 * size) && Times(v, u, Pow2(8 * size), k)
    decreases size
  {
    if size == 0 {
      k := v;
    } else {
      k := UnsignedReadsBack(v / 256, size - 1);
      var b := LittleEndian(v, size);
      assert b[0] == v % 256 && b[1..] == LittleEndian(v / 256, size - 1);
      var p := Pow2(8 * (size - 1));
      Pow2Step(8 * (size - 1));
      hide LittleEndian, Pow2;
      TimesMore(v, Unsigned(b[1..]), p, k);
    }
  }

  /** One more byte below. */
  lemma TimesMore(v: int, u: nat, m: nat, k: int)
    requires Times(v / 256, u, m, k)
    ensures Times(v, v % 256 + 256 * u, 256 * m, k)
  {
    assert v == 256 * (v / 256) + v % 256;
    assert 256 * (k * m) == k * (256 * m);
  }

  lemma ReversedTwice(b: Bytes)
    ensures Reversed(Reversed(b)) == b
  {
  }

  lemma TopBit(value: nat, half: nat)
    requires half > 0 && value < 2 * half
    ensures TopSet(value, half) <==> value >= half
  {
    if value >= half { QuotientIs(value, half, 1); } else { QuotientIs(value, half, 0); }
  }

  lemma Scaled(p: nat, q: nat, b: nat)
    ensures p < q ==> p * b + b <= q * b
  {
    if p < q { assert (p + 1) * b <= q * b; }
  }

  lemma QuotientIs(a: nat, b: nat, q: nat)
    requires b > 0 && q * b <= a < q * b + b
    ensures a / b == q
  {
    var r := a / b;
    assert a == b * r + a % b;
    Scaled(r, q, b);
    Scaled(q, r, b);
  }

  /**
   Scanning a number that was written gives the integer it is congruent to modulo
   2 to the number of bits, in the unsigned or the signed range, in either order
   of bytes.
   */
  lemma NumberReadsBack(v: int, size: nat, big: bool, unsigned: bool)
    requires size > 0
    ensures
      var u := ReadNumber(NumberBytes(v, size, big), big, unsigned);
      && Congruent(v, u, Pow2(8 * size))
      && if unsigned then 0 <= u < Pow2(8 * size) else -(Pow2(8 * size - 1) as int) <= u < Pow2(8 * size - 1)
  {
    ReversedTwice(LittleEndian(v, size));
    var k := UnsignedReadsBack(v, size);
    var value, half, whole := Unsigned(LittleEndian(v, size)), Pow2(8 * size - 1), Pow2(8 * size);
    assert whole == 2 * half;
    var u := ReadNumber(NumberBytes(v, size, big), big, unsigned);
    assert u == value || u == value as int - whole;
    assert u == value <==> unsigned || !TopSet(value, half);
    hide Pow2, ReadNumber, NumberBytes, LittleEndian, Unsigned, TopSet, Times;
    TopBit(value, half);
    OneMoreTime(v, value, whole, k);
  }

  lemma OneMoreTime(v: int, u: int, m: nat, k: int)
    requires Times(v, u, m, k)
    ensures Times(v, u - m, m, k + 1)
  {
  }

  /** The lowest byte of a number is first, or last when the order is big-endian, and each byte is 256 of the one before. */
  lemma NumberForm(v: int, size: nat)
    requires size > 0
    ensures
      var (b, r) := (NumberBytes(v, size, false), NumberBytes(v, size, true));
      && b[0] == v % 256 && r[size - 1] == v % 256
      && b[1..] == NumberBytes(v / 256, size - 1, false) && r[..size - 1] == NumberBytes(v / 256, size - 1, true)
  {
    var b := LittleEndian(v, size);
    assert b[1..] == LittleEndian(v / 256, size - 1);
    var (r, s) := (Reversed(b), Reversed(b[1..]));
    assert forall k :: 0 <= k < size - 1 ==> r[k] == b[size - 1 - k] && s[k] == b[1..][size - 2 - k];
  }

  // ----- what a field writes

  function TextBytes(text: seq<nat>, count: nat, pad: byte): (b: Bytes)
    ensures |b| == count
  {
    seq(count, k requires 0 <= k < count => if k < |text| then text[k] % 256 else pad)
  }

  function ItemBytes(items: seq<Option<int>>, size: nat, big: bool): (r: Option<Bytes>)
    ensures r.Some? ==> |r.value| == Place(|items|, size)
  {
    if items == [] then Some([])
    else
      var front, last := ItemBytes(items[..|items| - 1], size, big), items[|items| - 1];
      if front.None? || last.None? then None
      else
        PlaceNext(|items| - 1, size);
        Some(front.value + NumberBytes(last.value, size, big))
  }

  /** The weight of the digit in a place of a byte, filled from the low or the high end. */
  function Weight(place: nat, low: bool): (w: nat)
    requires place < 8
    ensures w > 0
  {
    if low then Pow2(place) else Pow2(7 - place)
  }

  /** From the low end the weights are 1, 2, 4 and so on, and from the high end 128, 64, 32. */
  lemma WeightsRun(place: nat)
    requires place < 7
    ensures Weight(0, true) == 1 && Weight(place + 1, true) == 2 * Weight(place, true)
    ensures Weight(0, false) == 128 && Weight(place, false) == 2 * Weight(place + 1, false)
  {
    Pow2Step(0);
    assert Pow2(8) == 2 * Pow2(7);
  }

  function BitAt(text: seq<nat>, k: nat): (d: Option<nat>)
    ensures d.Some? ==> d.value <= 1
  {
    if k >= |text| || text[k] == 48 then Some(0) else if text[k] == 49 then Some(1) else None
  }

  /** The value of the first places of a byte; digits past the count are not looked at, and missing ones are zero. */
  function PackedBits(text: seq<nat>, from: nat, places: nat, count: nat, low: bool): (v: Option<nat>)
    requires places <= 8
    ensures v.Some? ==> if low then v.value < Pow2(places) else v.value + Pow2(8 - places) <= 256
  {
    if places == 0 then assert Pow2(8) == 256 by { Powers(); } Some(0)
    else
      var before := PackedBits(text, from, places - 1, count, low);
      var digit := if from + places - 1 < count then BitAt(text, from + places - 1) else Some(0);
      if before.None? || digit.None? then None
      else Some(before.value + if digit.value == 1 then Weight(places - 1, low) else 0)
  }

  lemma Powers()
    ensures Pow2(8) == 256
  {
    Pow2Step(0);
  }

  function BitsBytes(text: seq<nat>, width: nat, count: nat, low: bool): (r: Option<Bytes>)
    ensures r.Some? ==> |r.value| == width
  {
    if width == 0 then Some([])
    else
      var front, last := BitsBytes(text, width - 1, count, low), PackedBits(text, 8 * (width - 1), 8, count, low);
      Powers();
      if front.None? || last.None? then None else Some(front.value + [last.value])
  }

  method BitsField(text: seq<nat>, count: nat, low: bool) returns (r: Option<Bytes>)
    ensures r == BitsBytes(text, (count + 7) / 8, count, low)
  {
    hide PackedBits, BitsBytes, Pow2;
    var width := (count + 7) / 8;
    var out: Bytes := [];
    NoBits(text, count, low);
    for byte_ := 0 to width
      invariant BitsBytes(text, byte_, count, low) == Some(out)
    {
      var value: nat := 0;
      var bit := 0;
      NoPlaces(text, 8 * byte_, count, low);
      while bit < 8
        invariant bit <= 8 && PackedBits(text, 8 * byte_, bit, count, low) == Some(value)
      {
        var index := byte_ * 8 + bit;
        PackedStep(text, 8 * byte_, bit, count, low);
        if index < count {
          var one := BitAt(text, index);
          if one.None? {
            BadByte(text, byte_, width, bit + 1, count, low);
            return None;
          }
          if one.value == 1 { value := value + Weight(bit, low); }
        }
        bit := bit + 1;
      }
      ByteStep(text, byte_, count, low);
      out := out + [value];
    }
    return Some(out);
  }

  lemma NoBits(text: seq<nat>, count: nat, low: bool)
    ensures BitsBytes(text, 0, count, low) == Some([])
  {
  }

  lemma NoPlaces(text: seq<nat>, from: nat, count: nat, low: bool)
    ensures PackedBits(text, from, 0, count, low) == Some(0)
  {
  }

  lemma PackedStep(text: seq<nat>, from: nat, places: nat, count: nat, low: bool)
    requires places < 8 && PackedBits(text, from, places, count, low).Some?
    ensures
      var digit := if from + places < count then BitAt(text, from + places) else Some(0);
      PackedBits(text, from, places + 1, count, low) ==
        if digit.None? then None
        else Some(PackedBits(text, from, places, count, low).value + if digit.value == 1 then Weight(places, low) else 0)
  {
  }

  lemma ByteStep(text: seq<nat>, width: nat, count: nat, low: bool)
    requires BitsBytes(text, width, count, low).Some? && PackedBits(text, 8 * width, 8, count, low).Some?
    ensures PackedBits(text, 8 * width, 8, count, low).value < 256
    ensures BitsBytes(text, width + 1, count, low) ==
      Some(BitsBytes(text, width, count, low).value + [PackedBits(text, 8 * width, 8, count, low).value])
  {
    Powers();
  }

  /** One bad digit spoils the whole field. */
  lemma {:induction false} BadByte(text: seq<nat>, byte_: nat, width: nat, places: nat, count: nat, low: bool)
    requires byte_ < width && places <= 8 && PackedBits(text, 8 * byte_, places, count, low).None?
    ensures BitsBytes(text, width, count, low).None?
    decreases width + 8 - places
  {
    if places < 8 {
      assert PackedBits(text, 8 * byte_, places + 1, count, low).None?;
      BadByte(text, byte_, width, places + 1, count, low);
    } else if byte_ + 1 < width {
      BadByte(text, byte_, width - 1, places, count, low);
    }
  }

  function NibbleAt(text: seq<nat>, k: nat): (d: Option<nat>)
    ensures d.Some? ==> d.value < 16
  {
    if k >= |text| then Some(0)
    else if 48 <= text[k] <= 57 then Some(text[k] - 48)
    else if 97 <= text[k] <= 102 then Some(text[k] - 87)
    else if 65 <= text[k] <= 70 then Some(text[k] - 55)
    else None
  }

  /** The digits of two halves of a byte: the first is the low half or the high one. */
  function HexBytes(text: seq<nat>, width: nat, count: nat, low: bool): (r: Option<Bytes>)
    ensures r.Some? ==> |r.value| == width
  {
    if width == 0 then Some([])
    else
      var front := HexBytes(text, width - 1, count, low);
      var first := NibbleAt(text, 2 * (width - 1));
      var second := if 2 * width - 1 < count then NibbleAt(text, 2 * width - 1) else Some(0);
      if front.None? || first.None? || second.None? then None
      else Some(front.value + [if low then first.value + 16 * second.value else 16 * first.value + second.value])
  }

  /** Of two digits the first is the high half of the byte, or the low half; a missing one is zero. */
  lemma HalvesForm(text: seq<nat>, width: nat, count: nat, low: bool)
    requires |text| == 2 && width == 1 && 1 <= count <= 2 && NibbleAt(text, 0).Some? && NibbleAt(text, 1).Some?
    ensures
      var x, y := NibbleAt(text, 0).value, if count == 2 then NibbleAt(text, 1).value else 0;
      HexBytes(text, width, count, low) == Some([if low then 16 * y + x else 16 * x + y])
  {
    hide NibbleAt;
    var none := width - 1;
    assert HexBytes(text, none, count, low) == Some([]);
    var x, y := NibbleAt(text, 2 * none), if 2 * width - 1 < count then NibbleAt(text, 2 * width - 1) else Some(0);
    var b: byte := if low then x.value + 16 * y.value else 16 * x.value + y.value;
    assert [] + [b] == [b];
  }

  method HexField(text: seq<nat>, count: nat, low: bool) returns (r: Option<Bytes>)
    ensures r == HexBytes(text, (count + 1) / 2, count, low)
  {
    var width := (count + 1) / 2;
    var out: Bytes := [];
    for byte_ := 0 to width
      invariant HexBytes(text, byte_, count, low) == Some(out)
    {
      var value: nat := 0;
      var half := 0;
      ghost var first := NibbleAt(text, 2 * byte_);
      while half < 2
        invariant 0 <= half <= 2 && (half > 0 ==> first.Some?)
        invariant half == 2 && 2 * byte_ + 1 < count ==> NibbleAt(text, 2 * byte_ + 1).Some?
        invariant value == if half == 0 then 0 else
          (if low then first.value else 16 * first.value)
          + (if half == 2 && 2 * byte_ + 1 < count then NibbleAt(text, 2 * byte_ + 1).value * (if low then 16 else 1) else 0)
      {
        var index := byte_ * 2 + half;
        if index < count {
          var digit := NibbleAt(text, index);
          if digit.None? {
            BadHalf(text, byte_, width, count, low);
            return None;
          }
          var high := (!low) == (half == 0);
          value := value + if high then 16 * digit.value else digit.value;
        }
        half := half + 1;
      }
      out := out + [value];
    }
    return Some(out);
  }

  lemma {:induction false} BadHalf(text: seq<nat>, byte_: nat, width: nat, count: nat, low: bool)
    requires byte_ < width
    requires NibbleAt(text, 2 * byte_).None? || (2 * byte_ + 1 < count && NibbleAt(text, 2 * byte_ + 1).None?)
    ensures HexBytes(text, width, count, low).None?
    decreases width
  {
    if byte_ + 1 < width { BadHalf(text, byte_, width - 1, count, low); }
  }

  /** The bytes a step puts at the cursor. */
  function FieldBytes(s: Step, args: seq<Arg>): (r: Result<Bytes, FormatError>)
    requires Fillable(s, args)
    ensures r.Ok? ==> |r.value| == Width(s)
  {
    match s.cmd
    case Text(pad) => Ok(TextBytes(args[s.arg].text, s.count, pad))
    case Bits(low) =>
      var b := BitsBytes(args[s.arg].text, Width(s), s.count, low);
      if b.None? then Err(BadBits) else Ok(b.value)
    case Hex(low) =>
      var b := HexBytes(args[s.arg].text, Width(s), s.count, low);
      if b.None? then Err(BadHex) else Ok(b.value)
    case Null => Ok(Zeros(s.count))
    case Number(size, big) =>
      var items := if s.scalar then [args[s.arg].whole] else args[s.arg].items.value[..s.count];
      var b := ItemBytes(items, size, big);
      if b.None? then Err(BadInteger) else Ok(b.value)
    case _ => Ok([])
  }

  function Zeros(n: nat): (b: Bytes)
    ensures |b| == n
  {
    seq(n, _ => 0)
  }

  // ----- the second pass

  function Painted(image: Bytes, at: nat, b: Bytes): (r: Bytes)
    requires at + |b| <= |image|
    ensures |r| == |image|
  {
    image[..at] + b + image[at + |b|..]
  }

  /** What the buffer holds after the steps. */
  function Image(steps: seq<Step>, args: seq<Arg>, length: nat): (r: Result<Bytes, FormatError>)
    requires HighWater(steps) <= length && forall k :: 0 <= k < |steps| ==> Fillable(steps[k], args)
    ensures r.Ok? ==> |r.value| == length
  {
    if steps == [] then Ok(Zeros(length))
    else
      var front, last := steps[..|steps| - 1], steps[|steps| - 1];
      var before := Image(front, args, length);
      var b := FieldBytes(last, args);
      if before.Err? then before
      else if b.Err? then Err(b.error)
      else
        FieldFits(steps, length);
        Ok(Painted(before.value, Cursor(front), b.value))
  }

  /** A step writes inside the buffer the first pass measured. */
  lemma FieldFits(steps: seq<Step>, length: nat)
    requires steps != [] && HighWater(steps) <= length
    ensures Cursor(steps[..|steps| - 1]) + Width(steps[|steps| - 1]) <= length
  {
    HighWaterBounds(steps, |steps| - 1);
  }

  /** An error of an earlier step is an error of the whole. */
  lemma {:induction false} ErrorStays(steps: seq<Step>, args: seq<Arg>, length: nat, k: nat)
    requires HighWater(steps) <= length && forall j :: 0 <= j < |steps| ==> Fillable(steps[j], args)
    requires k <= |steps| && HighWater(steps[..k]) <= length && Image(steps[..k], args, length).Err?
    ensures Image(steps, args, length) == Image(steps[..k], args, length)
    decreases |steps|
  {
    hide FieldBytes;
    if k == |steps| {
      assert steps[..k] == steps;
    } else {
      var front := steps[..|steps| - 1];
      assert front[..k] == steps[..k];
      ErrorStays(front, args, length, k);
    }
  }

  lemma {:induction false} HighWaterGrows(steps: seq<Step>, k: nat)
    requires k <= |steps|
    ensures HighWater(steps[..k]) <= HighWater(steps)
    decreases |steps|
  {
    if k == |steps| {
      assert steps[..k] == steps;
    } else {
      HighWaterGrows(steps[..|steps| - 1], k);
      assert steps[..|steps| - 1][..k] == steps[..k];
    }
  }

  method TextField(text: seq<nat>, count: nat, pad: byte) returns (b: Bytes)
    ensures b == TextBytes(text, count, pad)
  {
    b := [];
    for slot := 0 to count
      invariant b == TextBytes(text, slot, pad)
    {
      b := b + [if slot < |text| then text[slot] % 256 else pad];
    }
  }

  method NumberField(items: seq<Option<int>>, size: Size, big: bool) returns (r: Option<Bytes>)
    ensures r == ItemBytes(items, size, big)
  {
    hide NumberBytes, Place;
    var b: Bytes := [];
    for k := 0 to |items|
      invariant ItemBytes(items[..k], size, big) == Some(b)
    {
      assert items[..k + 1][..k] == items[..k];
      if items[k].None? {
        NoInteger(items, size, big, k + 1);
        return None;
      }
      b := b + NumberBytes(items[k].value, size, big);
    }
    assert items[..|items|] == items;
    r := Some(b);
  }

  /** The value of one field. */
  method Field(s: Step, args: seq<Arg>) returns (r: Result<Bytes, FormatError>)
    requires Fillable(s, args)
    ensures r == FieldBytes(s, args)
  {
    hide TextBytes, ItemBytes, BitsBytes, HexBytes;
    match s.cmd {
      case Text(pad) =>
        var b := TextField(args[s.arg].text, s.count, pad);
        r := Ok(b);
      case Bits(low) =>
        var b := BitsField(args[s.arg].text, s.count, low);
        r := if b.None? then Err(BadBits) else Ok(b.value);
      case Hex(low) =>
        var b := HexField(args[s.arg].text, s.count, low);
        r := if b.None? then Err(BadHex) else Ok(b.value);
      case Null => r := Ok(Zeros(s.count));
      case Number(size, big) =>
        var items := if s.scalar then [args[s.arg].whole] else args[s.arg].items.value[..s.count];
        var b := NumberField(items, size, big);
        r := if b.None? then Err(BadInteger) else Ok(b.value);
      case _ => r := Ok([]);
    }
  }

  lemma {:induction false} NoInteger(items: seq<Option<int>>, size: nat, big: bool, k: nat)
    requires k <= |items| && ItemBytes(items[..k], size, big).None?
    ensures ItemBytes(items, size, big).None?
    decreases |items|
  {
    if k == |items| {
      assert items[..k] == items;
    } else {
      assert items[..|items| - 1][..k] == items[..k];
      NoInteger(items[..|items| - 1], size, big, k);
    }
  }

  method Store(out: array<byte>, at: nat, b: Bytes)
    requires at + |b| <= out.Length
    modifies out
    ensures out[..] == Painted(old(out[..]), at, b)
  {
    for k := 0 to |b|
      invariant out[..] == Painted(old(out[..]), at, b[..k])
    {
      assert b[..k + 1] == b[..k] + [b[k]];
      out[at + k] := b[k];
    }
    assert b[..|b|] == b;
  }

  /**
   The second pass: its cursor is the first pass's at every field, so every field
   is written inside the buffer.
   */
  method WriteFields(plan: seq<Step>, args: seq<Arg>, length: nat) returns (error: Option<FormatError>, out: array<byte>)
    requires length == HighWater(plan) && forall k :: 0 <= k < |plan| ==> Fillable(plan[k], args)
    ensures fresh(out)
    ensures Image(plan, args, length) == if error.None? then Ok(out[..]) else Err(error.value)
  {
    hide FieldBytes, Fillable, HighWater, Painted;
    out := new byte[length](_ => 0);
    error := None;
    var at := 0;
    NoSteps(args, length);
    assert out[..] == Zeros(length);
    for k := 0 to |plan|
      invariant fresh(out) && out.Length == length && at == Cursor(plan[..k]) && error == None
      invariant HighWater(plan[..k]) <= length && Image(plan[..k], args, length) == Ok(out[..])
    {
      HighWaterGrows(plan, k + 1);
      assert plan[..k + 1][..k] == plan[..k];
      FieldFits(plan[..k + 1], length);
      var b := Field(plan[k], args);
      if b.Err? {
        ErrorStays(plan, args, length, k + 1);
        return Some(b.error), out;
      }
      Store(out, at, b.value);
      at := After(plan[k], at);
    }
    assert plan[..|plan|] == plan;
  }

  lemma NoSteps(args: seq<Arg>, length: nat)
    ensures HighWater([]) == 0 && Image([], args, length) == Ok(Zeros(length))
  {
  }

  /** What a format gives: the error of its first bad field, of its first bad value, or its bytes. */
  ghost predicate Formats(specs: seq<Spec>, args: seq<Arg>, r: Result<Bytes, FormatError>) {
    match PlanOf(specs, args)
    case Err(e) => r == Err(e)
    case Ok(plan) =>
      && (forall k :: 0 <= k < |plan| ==> Fillable(plan[k], args))
      && Image(plan, args, HighWater(plan)) == r
  }

  method Format(specs: seq<Spec>, args: seq<Arg>) returns (r: Result<Bytes, FormatError>)
    ensures Formats(specs, args, r)
  {
    var planned, length;
    planned, length := PlanFormat(specs, args);
    if planned.Err? { return Err(planned.error); }
    PlanIsPlanned(specs, args);
    hide PlanOf, HighWater, Image;
    var error, out;
    error, out := WriteFields(planned.value, args, length);
    r := if error.Some? then Err(error.value) else Ok(out[..]);
  }

  // ----- finding what was written

  /** Item `k` of a numeric field is at its place. */
  lemma {:induction false} ItemAt(items: seq<Option<int>>, size: nat, big: bool, k: nat)
    requires ItemBytes(items, size, big).Some? && k < |items|
    ensures items[k].Some? && Place(k, size) + size <= Place(|items|, size)
    ensures ItemBytes(items, size, big).value[Place(k, size)..Place(k, size) + size] == NumberBytes(items[k].value, size, big)
    decreases |items|
  {
    hide Place, NumberBytes;
    var n := |items| - 1;
    var front := ItemBytes(items[..n], size, big).value;
    PlaceNext(n, size);
    if k < n {
      ItemAt(items[..n], size, big, k);
      PlaceBelow(k, n, size);
    }
    hide *;
    PartOf(front, NumberBytes(items[n].value, size, big), Place(k, size), size);
  }

  /** A part of two byte strings one after the other, in one or the other. */
  lemma PartOf(a: Bytes, b: Bytes, from: nat, size: nat)
    requires |b| == size && (from + size <= |a| || from == |a|)
    ensures (a + b)[from..from + size] == if from == |a| then b else a[from..from + size]
  {
  }

  /** The step from cursor `at` writes nothing in `[from, to)`. */
  predicate Spares(s: Step, at: nat, from: nat, to: nat) {
    Width(s) == 0 || at + Width(s) <= from || to <= at
  }

  /** What the steps after the first `j` spare stays as those left it. */
  lemma {:induction false} Spared(steps: seq<Step>, args: seq<Arg>, length: nat, j: nat, from: nat, to: nat)
    requires HighWater(steps) <= length && (forall k :: 0 <= k < |steps| ==> Fillable(steps[k], args))
    requires j <= |steps| && from <= to <= length && Image(steps, args, length).Ok?
    requires forall k :: j <= k < |steps| ==> Spares(steps[k], Cursor(steps[..k]), from, to)
    ensures HighWater(steps[..j]) <= length && Image(steps[..j], args, length).Ok?
    ensures Image(steps, args, length).value[from..to] == Image(steps[..j], args, length).value[from..to]
    decreases |steps|
  {
    hide Fillable, HighWater, Width, Cursor, FieldBytes;
    HighWaterGrows(steps, j);
    if j == |steps| {
      assert steps[..j] == steps;
    } else {
      var n := |steps| - 1;
      var front := steps[..n];
      HighWaterGrows(steps, n);
      assert front[..j] == steps[..j];
      forall k | j <= k < n ensures Spares(front[k], Cursor(front[..k]), from, to) {
        assert front[..k] == steps[..k] && front[k] == steps[k];
      }
      Spared(front, args, length, j, from, to);
      FieldFits(steps, length);
      PaintedElsewhere(Image(front, args, length).value, Cursor(front), FieldBytes(steps[n], args).value, from, to);
    }
  }

  lemma PaintedElsewhere(image: Bytes, at: nat, b: Bytes, from: nat, to: nat)
    requires at + |b| <= |image| && from <= to <= |image|
    requires b == [] || at + |b| <= from || to <= at
    ensures Painted(image, at, b)[from..to] == image[from..to]
  {
  }
}
