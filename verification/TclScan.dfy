/**
 `binary scan`: the same fields read back, one at a time, and what it finds in
 what `binary format` wrote.
 */
module TclScan {
  import opened Wrappers
  import opened TextCode
  import opened TclBinary

  /** A field of a scan; `unsigned` is its `u` flag. */
  datatype Field = Field(spec: Spec, unsigned: bool)

  datatype Value = Chars(bytes: Bytes) | Digits(digits: seq<nat>) | Numbers(items: seq<int>)

  // ----- the value of one field

  /** Without the blanks and NULs at the end. */
  function Trimmed(b: Bytes): (t: Bytes)
    ensures t <= b && (t != [] ==> t[|t| - 1] != 0 && t[|t| - 1] != 32)
    ensures forall k :: |t| <= k < |b| ==> b[k] == 0 || b[k] == 32
  {
    if b != [] && (b[|b| - 1] == 0 || b[|b| - 1] == 32) then Trimmed(b[..|b| - 1]) else b
  }

  /** Digit `k` of a field of bits. */
  function BitDigit(b: Bytes, k: nat, low: bool): nat
    requires k / 8 < |b|
  {
    if TopSet(b[k / 8], Weight(k % 8, low)) then 1 else 0
  }

  /** Digit `k` of a field of halves of bytes. */
  function HexDigit(b: Bytes, k: nat, low: bool): nat
    requires k / 2 < |b|
  {
    if (!low) == (k % 2 == 0) then b[k / 2] / 16 else b[k / 2] % 16
  }

  /** The bytes of item `k`. */
  function Slot(b: Bytes, k: nat, count: nat, size: nat): (s: Bytes)
    requires k < count && |b| == Place(count, size)
    ensures |s| == size
  {
    PlaceBelow(k, count, size);
    b[Place(k, size)..Place(k, size) + size]
  }

  /** The bytes a field takes. */
  function Span(cmd: Command, count: nat): nat {
    Width(Step(cmd, count, 0, false))
  }

  /** What a field makes of its bytes. */
  function FieldValue(cmd: Command, count: nat, unsigned: bool, b: Bytes): Value
    requires |b| == Span(cmd, count)
  {
    match cmd
    case Text(pad) => Chars(if pad == 32 then Trimmed(b) else b)
    case Bits(low) => Digits(seq(count, k requires 0 <= k < count => BitDigit(b, k, low)))
    case Hex(low) => Digits(seq(count, k requires 0 <= k < count => HexDigit(b, k, low)))
    case Number(size, big) =>
      Numbers(seq(count, k requires 0 <= k < count => ReadNumber(Slot(b, k, count, size), big, unsigned)))
    case _ => Chars([])
  }

  // ----- the scan

  function ScanCount(spec: Spec, at: nat, length: nat): nat
    requires at <= length
  {
    match spec.count
    case One => 1
    case Num(n) => n
    case All =>
      match spec.cmd
      case Text(_) => length - at
      case Bits(_) => (length - at) * 8
      case Hex(_) => (length - at) * 2
      case Null => length - at
      case Back => at
      case To => length
      case Number(size, _) => (length - at) / size
      case Unknown => 0
  }

  /** A `*` count is the greatest for which what is left of the data is enough. */
  lemma StarTakesAll(cmd: Command, at: nat, length: nat)
    requires Consumes(cmd) && cmd != Unknown && at <= length
    ensures
      var count := ScanCount(Spec(cmd, All), at, length);
      at + Span(cmd, count) <= length < at + Span(cmd, count + 1)
  {
    var left := length - at;
    if cmd.Number? {
      var n := left / cmd.size;
      assert left == cmd.size * n + left % cmd.size;
      PlaceNext(n, cmd.size);
      assert Place(n, cmd.size) == cmd.size * n;
    }
  }

  /** Where a field that takes nothing moves the cursor. */
  function Moved(cmd: Command, count: nat, at: nat, length: nat): (r: nat)
    requires at <= length
    ensures r <= length
  {
    var r := After(Step(cmd, count, 0, false), at);
    if r < length then r else length
  }

  /** With `*` it moves to the end of the data, or back to its start; and it never leaves the data. */
  lemma StarMoves(at: nat, length: nat, count: nat)
    requires at <= length
    ensures Moved(Null, ScanCount(Spec(Null, All), at, length), at, length) == length
    ensures Moved(To, ScanCount(Spec(To, All), at, length), at, length) == length
    ensures Moved(Back, ScanCount(Spec(Back, All), at, length), at, length) == 0
    ensures Moved(Null, count, at, length) == if at + count <= length then at + count else length
    ensures Moved(Back, count, at, length) == if count <= at then at - count else 0
    ensures Moved(To, count, at, length) == if count <= length then count else length
  {
  }

  /** What the fields find from cursor `at`, after the values `got`. */
  function ScanOf(data: Bytes, fields: seq<Field>, vars: nat, at: nat, got: seq<Value>): (seq<Value>, Option<FormatError>)
    requires at <= |data|
    decreases |fields|
  {
    if fields == [] then (got, None)
    else
      var Field(spec, unsigned) := fields[0];
      if spec.cmd == To && spec.count == One then (got, Some(MissingCount))
      else if spec.cmd == Unknown then (got, Some(BadField))
      else if Consumes(spec.cmd) && |got| >= vars then (got, Some(NotEnough))
      else
        var count := ScanCount(spec, at, |data|);
        var span := Span(spec.cmd, count);
        if !Consumes(spec.cmd) then ScanOf(data, fields[1..], vars, Moved(spec.cmd, count, at, |data|), got)
        else if at + span > |data| then (got, None)
        else
          var value := FieldValue(spec.cmd, count, unsigned, data[at..at + span]);
          ScanOf(data, fields[1..], vars, at + span, got + [value])
  }

  method ReadBits(data: Bytes, at: nat, count: nat, low: bool) returns (digits: seq<nat>)
    requires at + (count + 7) / 8 <= |data|
    ensures |digits| == count && forall k :: 0 <= k < count ==> digits[k] == BitDigit(data[at..at + (count + 7) / 8], k, low)
  {
    hide TopSet, Weight;
    digits := [];
    for bit := 0 to count
      invariant |digits| == bit && forall k :: 0 <= k < bit ==> digits[k] == BitDigit(data[at..at + (count + 7) / 8], k, low)
    {
      digits := digits + [if TopSet(data[at + bit / 8], Weight(bit % 8, low)) then 1 else 0];
    }
  }

  method ReadHalves(data: Bytes, at: nat, count: nat, low: bool) returns (digits: seq<nat>)
    requires at + (count + 1) / 2 <= |data|
    ensures |digits| == count && forall k :: 0 <= k < count ==> digits[k] == HexDigit(data[at..at + (count + 1) / 2], k, low)
  {
    digits := [];
    for half := 0 to count
      invariant |digits| == half && forall k :: 0 <= k < half ==> digits[k] == HexDigit(data[at..at + (count + 1) / 2], k, low)
    {
      var byte_ := data[at + half / 2];
      var high := (!low) == (half % 2 == 0);
      digits := digits + [if high then byte_ / 16 else byte_ % 16];
    }
  }

  method ReadItems(data: Bytes, at: nat, count: nat, size: Size, big: bool, unsigned: bool) returns (items: seq<int>)
    requires at + Place(count, size) <= |data|
    ensures |items| == count && forall k :: 0 <= k < count ==>
      items[k] == ReadNumber(Slot(data[at..at + Place(count, size)], k, count, size), big, unsigned)
  {
    hide ReadNumber, Place;
    items := [];
    for item := 0 to count
      invariant |items| == item && forall k :: 0 <= k < item ==>
        items[k] == ReadNumber(Slot(data[at..at + Place(count, size)], k, count, size), big, unsigned)
    {
      PlaceBelow(item, count, size);
      var from := at + Place(item, size);
      PartOfPart(data, at, Place(count, size), Place(item, size), size);
      items := items + [ReadNumber(data[from..from + size], big, unsigned)];
    }
  }

  /** Drop the blanks and NULs at the end. */
  method Trim(b: Bytes) returns (taken: Bytes)
    ensures taken == Trimmed(b)
  {
    taken := b;
    while |taken| > 0 && (taken[|taken| - 1] == 32 || taken[|taken| - 1] == 0)
      invariant Trimmed(taken) == Trimmed(b)
    {
      taken := taken[..|taken| - 1];
    }
  }

  method ReadField(data: Bytes, at: nat, cmd: Command, count: nat, unsigned: bool) returns (v: Value)
    requires at + Span(cmd, count) <= |data| && Consumes(cmd) && cmd != Unknown
    ensures v == FieldValue(cmd, count, unsigned, data[at..at + Span(cmd, count)])
  {
    hide BitDigit, HexDigit, ReadNumber, Place, Trimmed, Slot;
    match cmd {
      case Text(pad) =>
        var taken := data[at..at + count];
        if pad == 32 { taken := Trim(taken); }
        v := Chars(taken);
      case Bits(low) =>
        var digits := ReadBits(data, at, count, low);
        v := Digits(digits);
      case Hex(low) =>
        var digits := ReadHalves(data, at, count, low);
        v := Digits(digits);
      case Number(size, big) =>
        var items := ReadItems(data, at, count, size, big, unsigned);
        v := Numbers(items);
    }
  }

  lemma PartOfPart(data: Bytes, at: nat, whole: nat, from: nat, size: nat)
    requires at + whole <= |data| && from + size <= whole
    ensures data[at..at + whole][from..from + size] == data[at + from..at + from + size]
  {
    var (a, b) := (data[at..at + whole][from..from + size], data[at + from..at + from + size]);
    assert |a| == |b| && forall k :: 0 <= k < |a| ==> a[k] == b[k];
  }

  /** One field at a time; a field whose data has run out ends the scan without an error. */
  method Scan(data: Bytes, fields: seq<Field>, vars: nat) returns (values: seq<Value>, error: Option<FormatError>)
    ensures (values, error) == ScanOf(data, fields, vars, 0, [])
  {
    hide FieldValue;
    values := [];
    var at: nat := 0;
    for i := 0 to |fields|
      invariant at <= |data| && ScanOf(data, fields, vars, 0, []) == ScanOf(data, fields[i..], vars, at, values)
    {
      assert fields[i..][0] == fields[i] && fields[i..][1..] == fields[i + 1..];
      var Field(spec, unsigned) := fields[i];
      if spec.cmd == To && spec.count == One { return values, Some(MissingCount); }
      if spec.cmd == Unknown { return values, Some(BadField); }
      if Consumes(spec.cmd) && |values| >= vars { return values, Some(NotEnough); }
      var count := ScanCount(spec, at, |data|);
      if Consumes(spec.cmd) {
        var span := Span(spec.cmd, count);
        if span > |data| - at { return values, None; }
        var value := ReadField(data, at, spec.cmd, count, unsigned);
        values := values + [value];
        at := at + span;
      } else {
        at := Moved(spec.cmd, count, at, |data|);
      }
    }
    error := None;
  }

  // ----- what it finds in what was formatted

  /** The fields of a scan that mirrors a format, with counts that mean the same to both. */
  predicate Mirrors(fields: seq<Field>, specs: seq<Spec>) {
    |fields| == |specs| && forall k :: 0 <= k < |specs| ==>
      fields[k].spec == specs[k] && (specs[k].count == All ==> specs[k].cmd == Back)
  }

  /** What step `k` of a plan left in the data. */
  function ValueAt(plan: seq<Step>, fields: seq<Field>, data: Bytes, k: nat): Value
    requires k < |plan| == |fields| && HighWater(plan) <= |data|
  {
    HighWaterGrows(plan, k + 1);
    assert plan[..k + 1][..k] == plan[..k];
    FieldFits(plan[..k + 1], |data|);
    var at := Cursor(plan[..k]);
    FieldValue(plan[k].cmd, plan[k].count, fields[k].unsigned, data[at..at + Width(plan[k])])
  }

  /** The values the first `n` steps left, those that are scanned. */
  function Found(plan: seq<Step>, fields: seq<Field>, data: Bytes, n: nat): seq<Value>
    requires n <= |plan| == |fields| && HighWater(plan) <= |data|
  {
    if n == 0 then []
    else Found(plan, fields, data, n - 1) + if Consumes(plan[n - 1].cmd) then [ValueAt(plan, fields, data, n - 1)] else []
  }

  /** As many as the steps that are scanned... */
  lemma {:induction false} FoundCount(specs: seq<Spec>, plan: seq<Step>, args: seq<Arg>, fields: seq<Field>, data: Bytes, n: nat)
    requires Planned(specs, plan, args) && |fields| == |specs| && HighWater(plan) <= |data| && n <= |plan|
    ensures |Found(plan, fields, data, n)| == Taken(specs[..n])
    decreases n
  {
    if n == 0 {
      assert specs[..0] == [];
    } else {
      hide *;
      StepAt(specs, plan, args, n - 1);
      FoundStep(plan, fields, data, n);
      FoundCount(specs, plan, args, fields, data, n - 1);
    }
  }

  /** ...each at its step's argument. */
  lemma {:induction false} FoundAt(specs: seq<Spec>, plan: seq<Step>, args: seq<Arg>, fields: seq<Field>, data: Bytes, n: nat, k: nat)
    requires Planned(specs, plan, args) && |fields| == |specs| && HighWater(plan) <= |data|
    requires k < n <= |plan| && Consumes(plan[k].cmd)
    ensures plan[k].arg < |Found(plan, fields, data, n)| && Found(plan, fields, data, n)[plan[k].arg] == ValueAt(plan, fields, data, k)
    decreases n
  {
    hide *;
    StepAt(specs, plan, args, k);
    FoundStep(plan, fields, data, n);
    if k < n - 1 {
      FoundAt(specs, plan, args, fields, data, n - 1, k);
    } else {
      FoundCount(specs, plan, args, fields, data, k);
    }
  }

  lemma FoundStep(plan: seq<Step>, fields: seq<Field>, data: Bytes, n: nat)
    requires 0 < n <= |plan| == |fields| && HighWater(plan) <= |data|
    ensures Found(plan, fields, data, n) ==
      Found(plan, fields, data, n - 1) + if Consumes(plan[n - 1].cmd) then [ValueAt(plan, fields, data, n - 1)] else []
  {
    hide ValueAt, HighWater;
  }

  lemma StepAt(specs: seq<Spec>, plan: seq<Step>, args: seq<Arg>, k: nat)
    requires Planned(specs, plan, args) && k < |plan|
    ensures |specs| == |plan| && plan[k].cmd == specs[k].cmd && plan[k].arg == Taken(specs[..k])
    ensures Taken(specs[..k + 1]) == Taken(specs[..k]) + if Consumes(plan[k].cmd) then 1 else 0
  {
    assert Resolved(specs[k], plan[..k], Taken(specs[..k]), plan[k], args);
    assert specs[..k + 1][..k] == specs[..k];
  }

  /** From each field on, the scan's cursor is the format's and finds what is there. */
  lemma {:induction false} ScanFollows(specs: seq<Spec>, plan: seq<Step>, args: seq<Arg>, fields: seq<Field>, data: Bytes, vars: nat, n: nat)
    requires Planned(specs, plan, args) && Mirrors(fields, specs) && |data| == HighWater(plan) && Taken(specs) <= vars && n <= |plan|
    ensures Cursor(plan[..n]) <= |data|
    ensures ScanOf(data, fields[n..], vars, Cursor(plan[..n]), Found(plan, fields, data, n)) ==
      (Found(plan, fields, data, |plan|), None)
    decreases |plan| - n
  {
    HighWaterBounds(plan, n);
    if n < |plan| {
      ScanFollows(specs, plan, args, fields, data, vars, n + 1);
      FieldStep(specs, plan, args, fields, data, vars, n);
    }
  }

  /** The scan of one field. */
  lemma FieldStep(specs: seq<Spec>, plan: seq<Step>, args: seq<Arg>, fields: seq<Field>, data: Bytes, vars: nat, n: nat)
    requires Planned(specs, plan, args) && Mirrors(fields, specs) && |data| == HighWater(plan) && Taken(specs) <= vars && n < |plan|
    requires Cursor(plan[..n]) <= |data| && Cursor(plan[..n + 1]) <= |data|
    ensures ScanOf(data, fields[n..], vars, Cursor(plan[..n]), Found(plan, fields, data, n)) ==
      ScanOf(data, fields[n + 1..], vars, Cursor(plan[..n + 1]), Found(plan, fields, data, n + 1))
  {
    hide *;
    MirrorsAt(specs, plan, args, fields, n);
    var at, step := Cursor(plan[..n]), plan[n];
    CursorStep(plan, n);
    StepMoves(step, at, |data|);
    CountsAgree(specs[n], plan[..n], Taken(specs[..n]), step, args, |data|);
    RoomFor(specs, plan, args, fields, data, n);
    FoundOneMore(plan, fields, data, n);
    OneScanned(data, fields[n..], vars, at, Found(plan, fields, data, n), step.count);
  }

  lemma MirrorsAt(specs: seq<Spec>, plan: seq<Step>, args: seq<Arg>, fields: seq<Field>, n: nat)
    requires Planned(specs, plan, args) && Mirrors(fields, specs) && n < |plan|
    ensures |fields| == |specs| == |plan| && Resolved(specs[n], plan[..n], Taken(specs[..n]), plan[n], args)
    ensures fields[n].spec == specs[n] && (specs[n].count == All ==> specs[n].cmd == Back)
    ensures fields[n..][0] == fields[n] && fields[n..][1..] == fields[n + 1..]
  {
    hide Resolved;
  }

  /** There is a variable for the value of the field. */
  lemma RoomFor(specs: seq<Spec>, plan: seq<Step>, args: seq<Arg>, fields: seq<Field>, data: Bytes, n: nat)
    requires Planned(specs, plan, args) && |fields| == |specs| && HighWater(plan) <= |data| && n < |specs|
    ensures |Found(plan, fields, data, n)| + (if Consumes(plan[n].cmd) then 1 else 0) <= Taken(specs)
  {
    FoundCount(specs, plan, args, fields, data, n);
    StepAt(specs, plan, args, n);
    hide *;
    TakenGrows(specs, n + 1);
  }

  lemma FoundOneMore(plan: seq<Step>, fields: seq<Field>, data: Bytes, n: nat)
    requires n < |plan| == |fields| && HighWater(plan) <= |data|
    ensures Cursor(plan[..n]) + Width(plan[n]) <= |data|
    ensures
      var (at, s) := (Cursor(plan[..n]), plan[n]);
      Found(plan, fields, data, n + 1) == if !Consumes(s.cmd) then Found(plan, fields, data, n)
        else Found(plan, fields, data, n) + [FieldValue(s.cmd, s.count, fields[n].unsigned, data[at..at + Span(s.cmd, s.count)])]
  {
    hide FieldValue, Cursor, HighWater;
    var found := Found(plan, fields, data, n);
    assert found + [] == found;
    assert Found(plan, fields, data, n + 1) == found + if Consumes(plan[n].cmd) then [ValueAt(plan, fields, data, n)] else [];
    hide Found;
    HighWaterGrows(plan, n + 1);
    assert plan[..n + 1][..n] == plan[..n];
    FieldFits(plan[..n + 1], |data|);
  }

  lemma CursorStep(plan: seq<Step>, n: nat)
    requires n < |plan|
    ensures Cursor(plan[..n + 1]) == After(plan[n], Cursor(plan[..n]))
  {
    assert plan[..n + 1][..n] == plan[..n];
  }

  lemma StepMoves(s: Step, at: nat, length: nat)
    requires at <= length && After(s, at) <= length
    ensures Width(s) == Span(s.cmd, s.count)
    ensures After(s, at) == if Consumes(s.cmd) then at + Span(s.cmd, s.count) else Moved(s.cmd, s.count, at, length)
  {
  }

  /** A count written out, or the whole way back, is the same to the scan. */
  lemma CountsAgree(spec: Spec, before: seq<Step>, taken: nat, s: Step, args: seq<Arg>, length: nat)
    requires Resolved(spec, before, taken, s, args) && (spec.count == All ==> spec.cmd == Back) && Cursor(before) <= length
    ensures s.cmd == spec.cmd != Unknown && !(spec.cmd == To && spec.count == One)
    ensures s.count == ScanCount(spec, Cursor(before), length)
  {
  }

  lemma OneScanned(data: Bytes, fields: seq<Field>, vars: nat, at: nat, got: seq<Value>, count: nat)
    requires at <= |data| && fields != [] && fields[0].spec.cmd != Unknown
    requires !(fields[0].spec.cmd == To && fields[0].spec.count == One) && count == ScanCount(fields[0].spec, at, |data|)
    requires Consumes(fields[0].spec.cmd) ==> |got| < vars && at + Span(fields[0].spec.cmd, count) <= |data|
    ensures
      var (cmd, span) := (fields[0].spec.cmd, Span(fields[0].spec.cmd, count));
      ScanOf(data, fields, vars, at, got) ==
        if Consumes(cmd)
        then ScanOf(data, fields[1..], vars, at + span, got + [FieldValue(cmd, count, fields[0].unsigned, data[at..at + span])])
        else ScanOf(data, fields[1..], vars, Moved(cmd, count, at, |data|), got)
  {
    hide FieldValue, ScanCount;
  }

  lemma {:induction false} TakenGrows(specs: seq<Spec>, n: nat)
    requires n <= |specs|
    ensures Taken(specs[..n]) <= Taken(specs)
    decreases |specs|
  {
    if n == |specs| {
      assert specs[..n] == specs;
    } else {
      assert specs[..|specs| - 1][..n] == specs[..n];
      TakenGrows(specs[..|specs| - 1], n);
    }
  }

  /**
   What is scanned with the fields it was formatted with: no error, a value for
   every argument, and from a field no later one has written over the value of the
   bytes that field wrote.
   */
  lemma ScanOfFormat(specs: seq<Spec>, plan: seq<Step>, args: seq<Arg>, data: Bytes, fields: seq<Field>, vars: nat, j: nat)
    requires Formats(specs, args, Ok(data)) && PlanOf(specs, args) == Ok(plan)
    requires Mirrors(fields, specs) && Taken(specs) <= vars && j < |plan|
    ensures ScanOf(data, fields, vars, 0, []).1 == None && |ScanOf(data, fields, vars, 0, []).0| == Taken(specs)
    ensures Consumes(plan[j].cmd) && SparedAfter(plan, j) ==>
      ReadsBack(plan[j], args, fields[j].unsigned, ScanOf(data, fields, vars, 0, []).0)
  {
    hide ScanOf, FieldBytes, FieldValue, SparedAfter, PlanOf, Image, HighWater, Taken;
    PlanIsPlanned(specs, args);
    assert Resolved(specs[j], plan[..j], Taken(specs[..j]), plan[j], args);
    assert plan[..0] == [] && fields[0..] == fields && specs[..|specs|] == specs;
    assert Found(plan, fields, data, 0) == [] && Cursor([]) == 0;
    hide Found, Cursor, Resolved;
    ScanFollows(specs, plan, args, fields, data, vars, 0);
    FoundCount(specs, plan, args, fields, data, |plan|);
    if Consumes(plan[j].cmd) && SparedAfter(plan, j) {
      FoundAt(specs, plan, args, fields, data, |plan|, j);
      StillThere(plan, args, data, j);
    }
  }

  /** The value of a step's argument is what the bytes the step writes give. */
  ghost predicate ReadsBack(s: Step, args: seq<Arg>, unsigned: bool, values: seq<Value>) {
    && Fillable(s, args) && s.arg < |values| && FieldBytes(s, args).Ok?
    && values[s.arg] == FieldValue(s.cmd, s.count, unsigned, FieldBytes(s, args).value)
  }

  /** No later step writes where step `j` did. */
  predicate SparedAfter(plan: seq<Step>, j: nat) {
    j < |plan| && forall k :: j < k < |plan| ==>
      Spares(plan[k], Cursor(plan[..k]), Cursor(plan[..j]), Cursor(plan[..j]) + Width(plan[j]))
  }

  lemma StillThere(plan: seq<Step>, args: seq<Arg>, data: Bytes, j: nat)
    requires (forall k :: 0 <= k < |plan| ==> Fillable(plan[k], args)) && Image(plan, args, HighWater(plan)) == Ok(data)
    requires SparedAfter(plan, j)
    ensures FieldBytes(plan[j], args).Ok? && Cursor(plan[..j]) + Width(plan[j]) <= |data|
    ensures data[Cursor(plan[..j])..Cursor(plan[..j]) + Width(plan[j])] == FieldBytes(plan[j], args).value
  {
    hide *;
    SparesAfter(plan, j);
    var at, to, upto := Cursor(plan[..j]), Cursor(plan[..j]) + Width(plan[j]), plan[..j + 1];
    HighWaterGrows(plan, j + 1);
    FieldFits(upto, |data|);
    Spared(plan, args, |data|, j + 1, at, to);
    ImageStep(plan, args, |data|, j);
    PaintedThere(Image(plan[..j], args, |data|).value, at, FieldBytes(plan[j], args).value);
  }

  lemma SparesAfter(plan: seq<Step>, j: nat)
    requires SparedAfter(plan, j)
    ensures j < |plan| && plan[..j + 1][..j] == plan[..j] && plan[..j + 1][j] == plan[j]
    ensures forall k :: j + 1 <= k < |plan| ==>
      Spares(plan[k], Cursor(plan[..k]), Cursor(plan[..j]), Cursor(plan[..j]) + Width(plan[j]))
  {
    hide Spares, Cursor, Width;
  }

  lemma ImageStep(plan: seq<Step>, args: seq<Arg>, length: nat, j: nat)
    requires (forall k :: 0 <= k < |plan| ==> Fillable(plan[k], args)) && j < |plan|
    requires HighWater(plan[..j + 1]) <= length && Image(plan[..j + 1], args, length).Ok?
    ensures HighWater(plan[..j]) <= length && Image(plan[..j], args, length).Ok? && FieldBytes(plan[j], args).Ok?
    ensures Cursor(plan[..j]) + Width(plan[j]) <= length
    ensures Image(plan[..j + 1], args, length).value ==
      Painted(Image(plan[..j], args, length).value, Cursor(plan[..j]), FieldBytes(plan[j], args).value)
  {
    hide FieldBytes, Fillable, Cursor, Width, Painted;
    var upto := plan[..j + 1];
    assert upto[..j] == plan[..j];
    HighWaterGrows(upto, j);
    FieldFits(upto, length);
  }

  lemma PaintedThere(image: Bytes, at: nat, b: Bytes)
    requires at + |b| <= |image|
    ensures Painted(image, at, b)[at..at + |b|] == b
  {
  }

  // ----- what the values are

  /** Integers read back as the ones they are congruent to, in range. */
  lemma NumbersReadBack(s: Step, args: seq<Arg>, unsigned: bool, k: nat)
    requires Fillable(s, args) && s.cmd.Number? && FieldBytes(s, args).Ok? && k < s.count
    ensures
      var (bits, v) := (8 * s.cmd.size, if s.scalar then args[s.arg].whole else args[s.arg].items.value[k]);
      var read := FieldValue(s.cmd, s.count, unsigned, FieldBytes(s, args).value);
      && v.Some? && |read.items| == s.count
      && Congruent(v.value, read.items[k], Pow2(bits))
      && if unsigned then 0 <= read.items[k] < Pow2(bits) else -(Pow2(bits - 1) as int) <= read.items[k] < Pow2(bits - 1)
  {
    hide Congruent, ReadNumber, Pow2, NumberBytes, ItemBytes, BitsBytes, HexBytes, TextBytes, Place;
    var items := if s.scalar then [args[s.arg].whole] else args[s.arg].items.value[..s.count];
    ItemAt(items, s.cmd.size, s.cmd.big, k);
    NumberReadsBack(items[k].value, s.cmd.size, s.cmd.big, unsigned);
  }

  /** Text reads back as its low bytes and the padding; without either when blanks are trimmed and it ends in none. */
  lemma TextReadsBack(s: Step, args: seq<Arg>, unsigned: bool)
    requires Fillable(s, args) && s.cmd.Text?
    ensures
      var (text, read) := (args[s.arg].text, FieldValue(s.cmd, s.count, unsigned, FieldBytes(s, args).value));
      && read.Chars?
      && (s.cmd.pad != 32 ==>
           && |read.bytes| == s.count
           && (forall k :: 0 <= k < s.count ==> read.bytes[k] == if k < |text| then text[k] % 256 else s.cmd.pad))
      && (s.cmd.pad == 32 && |text| <= s.count && (text != [] ==> text[|text| - 1] % 256 != 0 && text[|text| - 1] % 256 != 32) ==>
           && |read.bytes| == |text|
           && (forall k :: 0 <= k < |text| ==> read.bytes[k] == text[k] % 256))
  {
    var text := args[s.arg].text;
    if s.cmd.pad == 32 && |text| <= s.count && (text != [] ==> text[|text| - 1] % 256 != 0 && text[|text| - 1] % 256 != 32) {
      var b := TextBytes(text, s.count, 32);
      var t := Trimmed(b);
      assert text != [] ==> b[|text| - 1] == text[|text| - 1] % 256;
      assert t != [] ==> b[|t| - 1] == t[|t| - 1];
      assert t == b[..|text|];
    }
  }

  /** Bits read back as the digits they were, zeros past the end of the text. */
  lemma BitsReadBack(s: Step, args: seq<Arg>, unsigned: bool, k: nat)
    requires Fillable(s, args) && s.cmd.Bits? && FieldBytes(s, args).Ok? && k < s.count
    ensures
      var read := FieldValue(s.cmd, s.count, unsigned, FieldBytes(s, args).value);
      |read.digits| == s.count && BitAt(args[s.arg].text, k) == Some(read.digits[k])
  {
    hide PackedBits, BitsBytes, TopSet, Weight, BitAt;
    ByteOf(args[s.arg].text, Width(s), s.count, s.cmd.low, k / 8);
    BitOf(args[s.arg].text, k / 8 * 8, 8, s.count, s.cmd.low, k % 8);
  }

  /** Byte `n` of a field of bits. */
  lemma {:induction false} ByteOf(text: seq<nat>, width: nat, count: nat, low: bool, n: nat)
    requires BitsBytes(text, width, count, low).Some? && n < width
    ensures PackedBits(text, 8 * n, 8, count, low) == Some(BitsBytes(text, width, count, low).value[n])
    decreases width
  {
    hide PackedBits;
    if n < width - 1 { ByteOf(text, width - 1, count, low, n); }
  }

  /** A digit packed into a byte is still there after the others. */
  lemma {:induction false} BitOf(text: seq<nat>, from: nat, places: nat, count: nat, low: bool, k: nat)
    requires k < places <= 8 && from + k < count && PackedBits(text, from, places, count, low).Some?
    ensures
      BitAt(text, from + k) == Some(if TopSet(PackedBits(text, from, places, count, low).value, Weight(k, low)) then 1 else 0)
    decreases places
  {
    var before := PackedBits(text, from, places - 1, count, low).value;
    var digit := if from + places - 1 < count then BitAt(text, from + places - 1) else Some(0);
    hide PackedBits, BitAt, TopSet, Weight, Pow2;
    Vacant(text, from, places - 1, count, low);
    BitKept(before, places - 1, low, k);
    if k < places - 1 { BitOf(text, from, places - 1, count, low, k); }
  }

  /** The value of the first places is clear of the next. */
  ghost predicate Clear(v: nat, places: nat, low: bool)
    requires places < 8
  {
    if low then v < Pow2(places) else Multiple(v, 2 * Pow2(7 - places))
  }

  ghost predicate Multiple(v: nat, m: nat) {
    exists a: nat :: Product(a, m) == v
  }

  ghost function Product(a: nat, m: nat): nat {
    a * m
  }

  lemma {:induction false} Vacant(text: seq<nat>, from: nat, places: nat, count: nat, low: bool)
    requires places < 8 && PackedBits(text, from, places, count, low).Some?
    ensures Clear(PackedBits(text, from, places, count, low).value, places, low)
    decreases places
  {
    if !low {
      var w := Pow2(7 - places);
      if places == 0 {
        assert Product(0, 2 * w) == 0;
      } else {
        Vacant(text, from, places - 1, count, low);
        var v := PackedBits(text, from, places - 1, count, low).value;
        assert Weight(places - 1, low) == Pow2(8 - places) == 2 * w;
        hide Pow2, Multiple;
        Halved(v, 2 * w);
      }
    }
  }

  lemma Halved(v: nat, m: nat)
    requires Multiple(v, 2 * m)
    ensures Multiple(v, m) && Multiple(v + m, m)
  {
    var a: nat :| Product(a, 2 * m) == v;
    assert Product(2 * a, m) == v && Product(2 * a + 1, m) == v + m;
  }

  lemma BitKept(v: nat, place: nat, low: bool, k: nat)
    requires place < 8 && k <= place && Clear(v, place, low)
    ensures k < place ==> TopSet(v + Weight(place, low), Weight(k, low)) == TopSet(v, Weight(k, low))
    ensures k == place ==> TopSet(v + Weight(place, low), Weight(k, low)) && !TopSet(v, Weight(k, low))
  {
    var h, w := Weight(k, low), Weight(place, low);
    if k < place {
      if low {
        PowersPart(k, place);
        AddedAbove(v, h, Pow2(place - k - 1));
      } else {
        PowersPart(7 - place, 7 - k);
        AddedBelow(v, h, w, Pow2(place - k - 1));
      }
    } else if low {
      QuotientIs(v, h, 0);
      QuotientIs(v + h, h, 1);
    } else {
      AddedAt(v, w);
    }
  }

  lemma {:induction false} PowersPart(k: nat, p: nat)
    requires k < p
    ensures Pow2(p) == Pow2(p - k - 1) * (2 * Pow2(k))
    decreases p
  {
    if k < p - 1 {
      PowersPart(k, p - 1);
      var x := p - k - 2;
      assert Pow2(x + 1) == 2 * Pow2(x) && Pow2(p) == 2 * Pow2(p - 1);
      hide Pow2;
      Doubled(Pow2(x), 2 * Pow2(k));
    }
  }

  lemma Doubled(x: nat, y: nat)
    ensures 2 * x * y == 2 * (x * y)
  {
  }

  lemma AddedAbove(v: nat, h: nat, q: nat)
    requires h > 0
    ensures TopSet(v + q * (2 * h), h) == TopSet(v, h)
  {
    var d := v / h;
    assert v == d * h + v % h;
    assert (d + 2 * q) * h == d * h + q * (2 * h);
    QuotientIs(v + q * (2 * h), h, d + 2 * q);
  }

  lemma AddedBelow(v: nat, h: nat, w: nat, q: nat)
    requires w > 0 && q > 0 && h == q * (2 * w) && Multiple(v, 2 * w)
    ensures h > 0 && TopSet(v + w, h) == TopSet(v, h)
  {
    var m := 2 * w;
    var a: nat :| Product(a, m) == v;
    assert q * m >= m;
    var d := a / q;
    Scaled(a % q, q, m);
    assert a == d * q + a % q;
    assert v == (d * q + a % q) * m == d * h + (a % q) * m;
    QuotientIs(v, h, d);
    QuotientIs(v + w, h, d);
  }

  lemma AddedAt(v: nat, w: nat)
    requires w > 0 && Multiple(v, 2 * w)
    ensures TopSet(v + w, w) && !TopSet(v, w)
  {
    var a: nat :| Product(a, 2 * w) == v;
    assert (2 * a) * w == v;
    QuotientIs(v, w, 2 * a);
    QuotientIs(v + w, w, 2 * a + 1);
  }

  /** Halves of bytes read back as the digits they were. */
  lemma {:induction false} HexReadsBack(s: Step, args: seq<Arg>, unsigned: bool, k: nat)
    requires Fillable(s, args) && s.cmd.Hex? && FieldBytes(s, args).Ok? && k < s.count
    ensures
      var read := FieldValue(s.cmd, s.count, unsigned, FieldBytes(s, args).value);
      |read.digits| == s.count && NibbleAt(args[s.arg].text, k) == Some(read.digits[k])
  {
    hide NibbleAt, HexBytes;
    HalvesOf(args[s.arg].text, Width(s), s.count, s.cmd.low, k / 2);
  }

  lemma {:induction false} HalvesOf(text: seq<nat>, width: nat, count: nat, low: bool, n: nat)
    requires HexBytes(text, width, count, low).Some? && n < width
    ensures
      var b := HexBytes(text, width, count, low).value[n];
      && NibbleAt(text, 2 * n) == Some(if low then b % 16 else b / 16)
      && (2 * n + 1 < count ==> NibbleAt(text, 2 * n + 1) == Some(if low then b / 16 else b % 16))
    decreases width
  {
    hide NibbleAt;
    if n < width - 1 { HalvesOf(text, width - 1, count, low, n); }
  }
}
