/** Uuencoding: lines of a length character and groups of up to four others. */
module TclUuencode {
  import opened Wrappers
  import opened TextCode

  const NEWLINE: byte := 10

  datatype UuError = BadCharacter(next: nat) | ShortData

  // ----- encoding

  /** Zero is a backquote, so that no line ends in a blank. */
  function UuDigit(v: nat): byte
    requires v < 64
  {
    if v == 0 then 96 else v + 32
  }

  /** The characters run from the exclamation mark, but for zero, and none is a blank. */
  lemma DigitsRun(v: nat)
    requires v < 63
    ensures UuDigit(0) == '`' as int && UuDigit(1) == '!' as int
    ensures v > 0 ==> UuDigit(v + 1) == UuDigit(v) as int + 1
    ensures !IsSpace(UuDigit(v))
  {
  }

  predicate InAlphabet(c: byte) {
    32 <= c <= 96
  }

  predicate IsSpace(c: byte) {
    c == 32 || 9 <= c <= 13
  }

  /** The six bits of a character. */
  function Six(c: byte): (v: nat)
    ensures v < 64
  {
    (c as int - 32) % 64
  }

  lemma DigitReads(v: nat)
    requires v < 64
    ensures Six(UuDigit(v)) == v && InAlphabet(UuDigit(v))
  {
  }

  function Bits(group: Bytes): (v: nat)
    requires 0 < |group| <= 3
    ensures v < 0x100_0000
  {
    var b1: nat := if |group| > 1 then group[1] else 0;
    var b2: nat := if |group| > 2 then group[2] else 0;
    (group[0] as nat * 256 + b1) * 256 + b2
  }

  function Shift(i: nat): nat {
    if i == 0 then 0x4_0000 else if i == 1 then 0x1000 else if i == 2 then 64 else 1
  }

  /** A group of bytes: only the characters they reach into. */
  function Group(group: Bytes): (s: Bytes)
    requires 0 < |group| <= 3
    ensures |s| == |group| + 1
  {
    seq(|group| + 1, i requires 0 <= i <= |group| => UuDigit(Bits(group) / Shift(i) % 64))
  }

  function First(line: Bytes): (n: nat)
    requires line != []
    ensures 0 < n <= 3 && n <= |line|
  {
    if |line| < 3 then |line| else 3
  }

  function Groups(line: Bytes): Bytes {
    if line == [] then [] else Group(line[..First(line)]) + Groups(line[First(line)..])
  }

  function Line(line: Bytes, sep: Bytes): Bytes
    requires |line| < 64
  {
    [UuDigit(|line|)] + Groups(line) + sep
  }

  /** Lines of `per` bytes, each with `sep` after it. */
  function Encoded(data: Bytes, per: nat, sep: Bytes): Bytes
    requires 0 < per < 64
  {
    if data == [] then []
    else if |data| <= per then Line(data, sep)
    else Line(data[..per], sep) + Encoded(data[per..], per, sep)
  }

  /** What may be asked for after a line: any of the blanks but a space. */
  predicate Blank(sep: Bytes) {
    forall k :: 0 <= k < |sep| ==> 9 <= sep[k] <= 13
  }

  /** The bytes of a line, from the longest a line of text may be. */
  function PerLine(maxlen: Option<nat>): (per: nat)
    ensures 3 <= per <= 63 && per % 3 == 0
  {
    var max := if maxlen.None? then 61 else if maxlen.value < 5 then 5 else if maxlen.value > 85 then 85 else maxlen.value;
    (max - 1) / 4 * 3
  }

  method EncodeLine(line: Bytes, sep: Bytes) returns (out: Bytes)
    requires |line| < 64
    ensures out == Line(line, sep)
  {
    hide Group, Bits;
    out := [UuDigit(|line|)];
    var at := 0;
    assert line[0..] == line;
    while at < |line|
      invariant at <= |line| && out + Groups(line[at..]) == [UuDigit(|line|)] + Groups(line)
    {
      var end := if at + 3 < |line| then at + 3 else |line|;
      var group := line[at..end];
      assert line[at..][..end - at] == group && line[at..][end - at..] == line[end..];
      var bits := Bits(group);
      ghost var before := out;
      for i := 0 to |group| + 1
        invariant out == before + Group(group)[..i]
      {
        GroupAt(group, i);
        assert Group(group)[..i + 1] == Group(group)[..i] + [Group(group)[i]];
        out := out + [UuDigit(bits / Shift(i) % 64)];
      }
      assert Group(group)[..|group| + 1] == Group(group);
      assert before + (Group(group) + Groups(line[end..])) == out + Groups(line[end..]);
      at := end;
    }
    assert line[at..] == [] && out + [] == out;
    out := out + sep;
  }

  lemma GroupAt(group: Bytes, i: nat)
    requires 0 < |group| <= 3 && i <= |group|
    ensures Group(group)[i] == UuDigit(Bits(group) / Shift(i) % 64)
  {
  }

  method Uuencode(data: Bytes, maxlen: Option<nat>, sep: Bytes) returns (out: Bytes)
    ensures out == Encoded(data, PerLine(maxlen), sep)
  {
    hide Line, PerLine;
    var per := PerLine(maxlen);
    out := [];
    var at := 0;
    assert data[0..] == data && [] + Encoded(data, per, sep) == Encoded(data, per, sep);
    while at < |data|
      invariant at <= |data| && out + Encoded(data[at..], per, sep) == Encoded(data, per, sep)
    {
      var end := if at + per < |data| then at + per else |data|;
      EncodedFront(data, at, end, per, sep);
      var line := EncodeLine(data[at..end], sep);
      assert out + (line + Encoded(data[end..], per, sep)) == (out + line) + Encoded(data[end..], per, sep);
      out := out + line;
      at := end;
    }
    assert data[at..] == [] && out + [] == out;
  }

  lemma EncodedFront(data: Bytes, at: nat, end: nat, per: nat, sep: Bytes)
    requires 0 < per < 64 && at < |data| && end == if at + per < |data| then at + per else |data|
    ensures Encoded(data[at..], per, sep) == Line(data[at..end], sep) + Encoded(data[end..], per, sep)
  {
    hide Line;
    assert data[at..][..end - at] == data[at..end] && data[at..][end - at..] == data[end..];
    if at + per >= |data| { assert data[at..end] == data[at..] && Line(data[at..], sep) + [] == Line(data[at..], sep); }
  }

  // ----- decoding

  /** What a group of characters starts with at `at`: `n` of the alphabet. */
  predicate AlphabetAt(data: Bytes, at: nat, n: nat) {
    at + n <= |data| && forall k :: at <= k < at + n ==> InAlphabet(data[k])
  }

  /** Four characters, an error instead, and where the reading stopped. */
  datatype Quad = Quad(bad: Option<UuError>, d: Bytes, p: nat)

  /** What strict decoding says of a character outside the alphabet, before position `next`. */
  function Stray(c: byte, next: nat): Option<UuError> {
    if !IsSpace(c) then Some(BadCharacter(next)) else if c == NEWLINE then Some(ShortData) else None
  }

  /** The characters of a group from the `i`-th on; the end of the data stands for those that are missing. */
  function Four(data: Bytes, strict: bool, p: nat, d: Bytes, i: nat): (q: Quad)
    requires p <= |data| && |d| == 4 && i <= 4
    ensures |q.d| == 4 && p <= q.p <= |data| && (q.bad.None? && i < 4 && p < |data| ==> p < q.p)
    decreases |data| - p, 4 - i
  {
    if i == 4 then Quad(None, d, p)
    else if p == |data| then Four(data, strict, p, d, i + 1)
    else
      var held := d[i := data[p]];
      if InAlphabet(data[p]) then Four(data, strict, p + 1, held, i + 1)
      else if strict && Stray(data[p], p + 1).Some? then Quad(Stray(data[p], p + 1), held, p + 1)
      else Four(data, strict, p + 1, held, i)
  }

  /** Read the characters of one group. */
  method ReadFour(data: Bytes, strict: bool, start: nat) returns (bad: Option<UuError>, d: Bytes, p: nat)
    requires start <= |data|
    ensures Quad(bad, d, p) == Four(data, strict, start, [0, 0, 0, 0], 0)
  {
    p, d, bad := start, [0, 0, 0, 0], None;
    var i := 0;
    while i < 4
      invariant i <= 4 && start <= p <= |data| && |d| == 4
      invariant Four(data, strict, start, [0, 0, 0, 0], 0) == Four(data, strict, p, d, i)
      decreases |data| - p, 4 - i
    {
      if p < |data| {
        var c := data[p];
        p := p + 1;
        d := d[i := c];
        if !InAlphabet(c) {
          if strict {
            if !IsSpace(c) { return Some(BadCharacter(p)), d, p; }
            if c == NEWLINE { return Some(ShortData), d, p; }
          }
          continue;
        }
      }
      i := i + 1;
    }
  }

  /** A whole group is read as it stands. */
  lemma {:induction false} FourAhead(data: Bytes, strict: bool, p: nat, d: Bytes, i: nat)
    requires i <= 4 && |d| == 4 && AlphabetAt(data, p, 4 - i)
    ensures Four(data, strict, p, d, i) == Quad(None, d[..i] + data[p..p + 4 - i], p + 4 - i)
    decreases 4 - i
  {
    if i == 4 {
      assert d[..4] + data[p..p] == d;
    } else {
      var held := d[i := data[p]];
      FourAhead(data, strict, p + 1, held, i + 1);
      assert held[..i + 1] + data[p + 1..p + 4 - i] == d[..i] + data[p..p + 4 - i];
    }
  }

  /** A shorter one is followed by blanks to the end of the data: strictly a newline among them means the data is short. */
  lemma {:induction false} FewAhead(data: Bytes, strict: bool, p: nat, d: Bytes, i: nat, n: nat)
    requires i <= n < 4 && |d| == 4 && AlphabetAt(data, p, n - i) && Blank(data[p + n - i..])
    ensures
      var q := Four(data, strict, p, d, i);
      if strict && NEWLINE in data[p + n - i..] then q.bad == Some(ShortData)
      else q.bad.None? && q.p == |data| && q.d[..n] == d[..i] + data[p..p + n - i]
    decreases n - i
  {
    if i == n {
      BlanksRead(data, strict, p, d, i);
      assert d[..i] + data[p..p] == d[..i];
    } else {
      var held := d[i := data[p]];
      FewAhead(data, strict, p + 1, held, i + 1, n);
      assert held[..i + 1] + data[p + 1..p + n - i] == d[..i] + data[p..p + n - i];
    }
  }

  lemma {:induction false} BlanksRead(data: Bytes, strict: bool, p: nat, d: Bytes, i: nat)
    requires i < 4 && |d| == 4 && p <= |data| && Blank(data[p..])
    ensures
      var q := Four(data, strict, p, d, i);
      if strict && NEWLINE in data[p..] then q.bad == Some(ShortData) else q.bad.None? && q.p == |data| && q.d[..i] == d[..i]
    decreases |data| - p
  {
    if p == |data| {
      Missing(data, strict, d, i);
    } else {
      var held := d[i := data[p]];
      assert data[p] == data[p..][0] && data[p..][1..] == data[p + 1..];
      assert data[p..] == [data[p]] + data[p + 1..];
      BlanksRead(data, strict, p + 1, held, i);
      assert held[..i] == d[..i];
    }
  }

  lemma {:induction false} Missing(data: Bytes, strict: bool, d: Bytes, i: nat)
    requires i <= 4 && |d| == 4
    ensures Four(data, strict, |data|, d, i) == Quad(None, d, |data|)
    decreases 4 - i
  {
    if i < 4 { Missing(data, strict, d, i + 1); }
  }

  /** Where the next line begins, or the character that keeps it from beginning. */
  function Next(data: Bytes, strict: bool, p: nat): (r: (Option<UuError>, nat))
    requires p <= |data|
    ensures p <= r.1 <= |data|
    decreases |data| - p
  {
    if p == |data| then (None, p)
    else if data[p] == NEWLINE then (None, p + 1)
    else if InAlphabet(data[p]) then (None, p)
    else if strict || !IsSpace(data[p]) then (Some(BadCharacter(p + 1)), p + 1)
    else Next(data, strict, p + 1)
  }

  /** Skip what is left of a line. */
  method NextLine(data: Bytes, strict: bool, start: nat) returns (bad: Option<UuError>, p: nat)
    requires start <= |data|
    ensures (bad, p) == Next(data, strict, start)
  {
    p, bad := start, None;
    while p < |data|
      invariant start <= p <= |data| && Next(data, strict, start) == Next(data, strict, p)
    {
      var c := data[p];
      p := p + 1;
      if c == NEWLINE { return; }
      if InAlphabet(c) { return None, p - 1; }
      if strict || !IsSpace(c) { return Some(BadCharacter(p)), p; }
    }
  }

  lemma BitsOfGroup(group: Bytes)
    requires 0 < |group| <= 3
    ensures
      var v := Bits(group);
      && v / 0x1_0000 == group[0]
      && (|group| > 1 ==> v / 256 % 256 == group[1])
      && (|group| > 2 ==> v % 256 == group[2])
  {
    var b1: nat := if |group| > 1 then group[1] else 0;
    var b2: nat := if |group| > 2 then group[2] else 0;
    ThreeBytes(group[0], b1, b2);
  }

  lemma ThreeBytes(a: nat, b: nat, c: nat)
    requires a < 256 && b < 256 && c < 256
    ensures var v := (a * 256 + b) * 256 + c; v / 0x1_0000 == a && v / 256 % 256 == b && v % 256 == c
  {
  }

  /** The three bytes four characters can carry. */
  function Carried(d: Bytes): (b: Bytes)
    requires |d| == 4
    ensures |b| == 3
  {
    var (s0, s1, s2, s3) := (Six(d[0]), Six(d[1]), Six(d[2]), Six(d[3]));
    [s0 * 4 + s1 / 16, s1 % 16 * 16 + s2 / 4, s2 % 4 * 64 + s3]
  }

  /** The characters of a group carry its bytes. */
  lemma GroupCarries(group: Bytes, d: Bytes)
    requires 0 < |group| <= 3 && |d| == 4 && d[..|group| + 1] == Group(group)
    ensures Carried(d)[..|group|] == group
  {
    var v := Bits(group);
    forall i | 0 <= i <= |group| ensures Six(d[i]) == v / Shift(i) % 64 {
      assert d[i] == d[..|group| + 1][i];
      GroupAt(group, i);
      DigitReads(v / Shift(i) % 64);
    }
    BitsOfGroup(group);
    hide Bits, Six, Group;
    SixBits(v);
    assert Six(d[0]) * 4 + Six(d[1]) / 16 == group[0];
    assert |group| > 1 ==> Six(d[1]) % 16 * 16 + Six(d[2]) / 4 == group[1];
    assert |group| > 2 ==> Six(d[2]) % 4 * 64 + Six(d[3]) == group[2];
  }

  lemma SixBits(v: nat)
    requires v < 0x100_0000
    ensures
      var (a, b, c, e) := (v / 0x4_0000 % 64, v / 0x1000 % 64, v / 64 % 64, v / 1 % 64);
      a * 4 + b / 16 == v / 0x1_0000 && b % 16 * 16 + c / 4 == v / 256 % 256 && c % 4 * 64 + e == v % 256
  {
    var w := v / 64;
    var x := w / 64;
    assert v / 0x1000 == x && v / 0x4_0000 == x / 64 && v / 256 == w / 4 && v / 0x1_0000 == x / 16;
    HighBits(x);
    MiddleBits(w);
    LowBits(v);
  }

  lemma HighBits(x: nat)
    requires x < 0x1000
    ensures x / 64 % 64 * 4 + x % 64 / 16 == x / 16
  {
  }

  lemma MiddleBits(w: nat)
    ensures w / 64 % 64 % 16 * 16 + w % 64 / 4 == w / 4 % 256
  {
    var a, b := w / 64, w % 64;
    assert w / 4 == 16 * a + b / 4;
    SixteenOf(a);
    Spread(a, b / 4);
  }

  lemma SixteenOf(a: nat)
    ensures a % 64 % 16 == a % 16
  {
    assert a == 64 * (a / 64) + a % 64;
  }

  lemma Spread(a: nat, b: nat)
    requires b < 16
    ensures (16 * a + b) % 256 == 16 * (a % 16) + b
  {
    assert 16 * a + b == 256 * (a / 16) + (16 * (a % 16) + b);
  }

  lemma LowBits(v: nat)
    ensures v / 64 % 64 % 4 * 64 + v % 64 == v % 256
  {
    var w := v / 64;
    assert w % 64 % 4 == w - 4 * (w / 4) && w / 4 == v / 256;
  }

  /** The end of a line, and the lines after it. */
  ghost function LineEnd(rest: Bytes, per: nat, sep: Bytes): Bytes
    requires 0 < per < 64
  {
    sep + Encoded(rest, per, sep)
  }

  /** What is left of a line is at `p`: its groups, what ends it, and the lines after. */
  ghost predicate InLine(data: Bytes, p: nat, line: Bytes, rest: Bytes, per: nat, sep: Bytes) {
    0 < per < 64 && p <= |data| && data[p..] == Groups(line) + LineEnd(rest, per, sep)
  }

  /** The first group of what is left of a line, as the decoder meets it. */
  lemma GroupAhead(data: Bytes, p: nat, line: Bytes, rest: Bytes, per: nat, sep: Bytes)
    requires InLine(data, p, line, rest, per, sep) && line != []
    ensures
      var n := First(line);
      && AlphabetAt(data, p, n + 1) && data[p..p + n + 1] == Group(line[..n])
      && InLine(data, p + n + 1, line[n..], rest, per, sep)
      && (line[n..] == [] ==> data[p + n + 1..] == LineEnd(rest, per, sep))
  {
    var n := First(line);
    var g, more := Group(line[..n]), Groups(line[n..]);
    assert Groups(line) == g + more;
    NoGroups();
    hide Group, Groups, Encoded, AlphabetAt, LineEnd;
    Associate(g, more, LineEnd(rest, per, sep));
    Ahead(data, p, g, more + LineEnd(rest, per, sep));
    if line[n..] == [] { assert more + LineEnd(rest, per, sep) == LineEnd(rest, per, sep); }
    GroupInAlphabet(data, p, line[..n]);
  }

  lemma Associate(a: Bytes, b: Bytes, c: Bytes)
    ensures (a + b) + c == a + (b + c)
  {
  }

  /** What is at `p`, in two parts. */
  lemma Ahead(data: Bytes, p: nat, a: Bytes, b: Bytes)
    requires p <= |data| && data[p..] == a + b
    ensures p + |a| + |b| == |data| && data[p..p + |a|] == a && data[p + |a|..] == b && (b != [] ==> data[p + |a|] == b[0])
  {
    assert data[p..p + |a|] == data[p..][..|a|];
    assert data[p + |a|..] == data[p..][|a|..];
  }

  lemma GroupInAlphabet(data: Bytes, p: nat, group: Bytes)
    requires 0 < |group| <= 3 && p + |group| + 1 <= |data| && data[p..p + |group| + 1] == Group(group)
    ensures AlphabetAt(data, p, |group| + 1)
  {
    hide Group, UuDigit, InAlphabet, Bits;
    forall k | p <= k < p + |group| + 1 ensures InAlphabet(data[k]) {
      assert data[k] == data[p..p + |group| + 1][k - p];
      GroupAt(group, k - p);
      DigitReads(Bits(group) / Shift(k - p) % 64);
    }
  }

  lemma NoGroups()
    ensures Groups([]) == []
  {
  }

  /** A line begins with its length. */
  lemma LineAhead(data: Bytes, p: nat, rest: Bytes, per: nat, sep: Bytes)
    requires 0 < per < 64 && p <= |data| && data[p..] == Encoded(rest, per, sep)
    ensures rest == [] <==> p == |data|
    ensures rest != [] ==>
      var n := if |rest| <= per then |rest| else per;
      data[p] == UuDigit(n) && InLine(data, p + 1, rest[..n], rest[n..], per, sep)
  {
    if rest != [] {
      var n := if |rest| <= per then |rest| else per;
      assert rest[0..] == rest;
      EncodedFront(rest, 0, n, per, sep);
      var line, more := rest[..n], Encoded(rest[n..], per, sep);
      assert Line(line, sep) == [UuDigit(n)] + Groups(line) + sep;
      hide Line, Groups, Encoded, UuDigit;
      Associate([UuDigit(n)] + Groups(line), sep, more);
      Associate([UuDigit(n)], Groups(line), sep + more);
      Ahead(data, p, [UuDigit(n)], Groups(line) + (sep + more));
    }
  }

  /** What the text from `p` on adds to `out`, on a line with `lineLen` bytes to come; at the start of one when that is negative. */
  function DecodedFrom(data: Bytes, strict: bool, p: nat, lineLen: int, out: Bytes): Result<Bytes, UuError>
    requires p <= |data| && -1 <= lineLen < 64
    decreases |data| - p
  {
    if p == |data| then (if lineLen > 0 && strict then Err(ShortData) else Ok(out))
    else if lineLen < 0 && !InAlphabet(data[p]) then
      if strict || !IsSpace(data[p]) then Err(BadCharacter(p + 1)) else DecodedFrom(data, strict, p + 1, lineLen, out)
    else
      var (left, from) := if lineLen < 0 then (Six(data[p]), p + 1) else (lineLen, p);
      var quad := Four(data, strict, from, [0, 0, 0, 0], 0);
      var take := if left < 3 then left else 3;
      var bytes := Carried(quad.d)[..take];
      if quad.bad.Some? then Err(quad.bad.value)
      else if left == take && quad.p < |data| then
        var (stray, q) := Next(data, strict, quad.p);
        if stray.Some? then Err(stray.value) else DecodedFrom(data, strict, q, -1, out + bytes)
      else DecodedFrom(data, strict, quad.p, left - take, out + bytes)
  }

  /** Decode uuencoding. */
  method DecodeUuencode(data: Bytes, strict: bool) returns (r: Result<Bytes, UuError>)
    ensures r == DecodedFrom(data, strict, 0, -1, [])
  {
    hide Four, Next, Carried, Six, IsSpace, InAlphabet;
    var out: Bytes := [];
    var lineLen: int, p: nat := -1, 0;
    while p < |data|
      invariant p <= |data| && -1 <= lineLen < 64
      invariant DecodedFrom(data, strict, 0, -1, []) == DecodedFrom(data, strict, p, lineLen, out)
      decreases |data| - p
    {
      if lineLen < 0 {
        var c := data[p];
        p := p + 1;
        if !InAlphabet(c) {
          if strict || !IsSpace(c) { return Err(BadCharacter(p)); }
          continue;
        }
        lineLen := Six(c);
      }
      var bad, d;
      bad, d, p := ReadFour(data, strict, p);
      if bad.Some? { return Err(bad.value); }
      var take := if lineLen < 3 then lineLen else 3;
      out := out + Carried(d)[..take];
      lineLen := lineLen - take;
      // The line's bytes are all out: skip to the next line.
      if lineLen == 0 && p < |data| {
        lineLen := -1;
        bad, p := NextLine(data, strict, p);
        if bad.Some? { return Err(bad.value); }
      }
    }
    r := if lineLen > 0 && strict then Err(ShortData) else Ok(out);
  }

  // ----- the round trip

  /** One group of an encoded line: as many of its bytes as the line still has. */
  lemma GroupTaken(data: Bytes, strict: bool, from: nat, line: Bytes, rest: Bytes, per: nat, sep: Bytes)
    requires from <= |data| && line != [] && InLine(data, from, line, rest, per, sep) && Blank(sep) && (|line| < 3 ==> rest == [])
    ensures
      var q := Four(data, strict, from, [0, 0, 0, 0], 0);
      if |line| < 3 && strict && NEWLINE in sep then q.bad == Some(ShortData)
      else q.bad.None? && Carried(q.d)[..First(line)] == line[..First(line)]
           && (|line| < 3 ==> q.p == |data|)
           && (|line| >= 3 ==> q.p > from && InLine(data, q.p, line[3..], rest, per, sep))
           && (|line| == 3 ==> data[q.p..] == LineEnd(rest, per, sep))
  {
    if |line| < 3 { assert LineEnd([], per, sep) == sep; }
    hide InLine, Carried, AlphabetAt, Group, Four, LineEnd;
    GroupAhead(data, from, line, rest, per, sep);
    var n := First(line);
    var d: Bytes := [0, 0, 0, 0];
    var q := Four(data, strict, from, d, 0);
    assert d[..0] + data[from..from + n + 1] == data[from..from + n + 1];
    if |line| < 3 {
      assert data[from + n + 1..] == sep;
      FewAhead(data, strict, from, d, 0, n + 1);
      if q.bad.None? { GroupCarries(line[..n], q.d); }
    } else {
      FourAhead(data, strict, from, d, 0);
      assert q.d[..4] == q.d == data[from..from + 4];
      GroupCarries(line[..n], q.d);
    }
  }

  /** Blanks at `p`, up to the next line or the end of the data. */
  ghost predicate BlanksTo(data: Bytes, p: nat, to: nat) {
    p <= to <= |data| && Blank(data[p..to]) && (to < |data| ==> InAlphabet(data[to]))
  }

  lemma BlankFirst(data: Bytes, p: nat, to: nat)
    requires BlanksTo(data, p, to) && p < to
    ensures IsSpace(data[p]) && !InAlphabet(data[p]) && BlanksTo(data, p + 1, to)
  {
    assert data[p] == data[p..to][0] && data[p + 1..to] == data[p..to][1..];
  }

  /** Between lines blanks are passed over... */
  lemma {:induction false} BlanksPassed(data: Bytes, p: nat, to: nat, out: Bytes)
    requires BlanksTo(data, p, to)
    ensures DecodedFrom(data, false, p, -1, out) == DecodedFrom(data, false, to, -1, out)
    decreases (to as int) - p
  {
    hide Four, Next, Carried, Six, IsSpace, InAlphabet, Blank;
    if p < to {
      BlankFirst(data, p, to);
      BlanksPassed(data, p + 1, to, out);
    }
  }

  /** ...and none of them keeps the next line from beginning. */
  lemma {:induction false} BlanksNext(data: Bytes, p: nat, to: nat)
    requires BlanksTo(data, p, to)
    ensures Next(data, false, p).0 == None && BlanksTo(data, Next(data, false, p).1, to)
    decreases (to as int) - p
  {
    if p < to {
      BlankFirst(data, p, to);
      if data[p] != NEWLINE { BlanksNext(data, p + 1, to); }
    }
  }

  /** Strictly, only one newline may stand between lines, or nothing. */
  lemma StrictNext(data: Bytes, p: nat, to: nat, out: Bytes)
    requires BlanksTo(data, p, to) && p < |data|
    ensures
      var (stray, q) := Next(data, true, p);
      if p == to || (to == p + 1 && data[p] == NEWLINE) then stray == None && q == to
      else stray.Some? || DecodedFrom(data, true, q, -1, out).Err?
  {
    if p < to {
      BlankFirst(data, p, to);
      if p + 1 < to { BlankFirst(data, p + 1, to); }
    }
    hide Four, Carried, Six;
  }

  /** What becomes of the bytes `left`, on one line or more, when `b` is to be decoded. */
  ghost predicate Verdict(r: Result<Bytes, UuError>, strict: bool, sep: Bytes, left: nat, single: bool, b: Bytes) {
    if !strict || left == 0 || sep == [] then r == Ok(b)
    else if sep == [NEWLINE] then r == if left % 3 != 0 then Err(ShortData) else Ok(b)
    else if single && left % 3 != 0 then r == if NEWLINE in sep then Err(ShortData) else Ok(b)
    else r.Err?
  }

  /** The end of a line, with the lines `rest` after it. */
  lemma LineEnds(data: Bytes, p: nat, rest: Bytes, per: nat, sep: Bytes)
    requires 0 < per < 64 && p <= |data| && data[p..] == LineEnd(rest, per, sep) && Blank(sep)
    ensures p + |sep| <= |data| && BlanksTo(data, p, p + |sep|) && data[p..p + |sep|] == sep
    ensures data[p + |sep|..] == Encoded(rest, per, sep) && (sep != [] ==> data[p] == sep[0])
    ensures rest == [] <==> p + |sep| == |data|
  {
    var to := p + |sep|;
    assert data[p..to] == data[p..][..|sep|] == sep;
    assert data[to..] == data[p..][|sep|..] == Encoded(rest, per, sep);
    LineAhead(data, to, rest, per, sep);
    if to < |data| { DigitReads(if |rest| <= per then |rest| else per); }
    if sep != [] { assert data[p] == data[p..][0]; }
  }

  /** From the start of a line it goes on to the end... */
  lemma {:induction false} DecodesLines(data: Bytes, strict: bool, p: nat, out: Bytes, rest: Bytes, b: Bytes, per: nat, sep: Bytes)
    requires 3 <= per < 64 && per % 3 == 0 && Blank(sep) && p <= |data| && data[p..] == Encoded(rest, per, sep) && out + rest == b
    ensures Verdict(DecodedFrom(data, strict, p, -1, out), strict, sep, |rest|, |rest| <= per, b)
    decreases |data| - p, 1
  {
    hide Encoded, InLine, UuDigit, InAlphabet, Six, IsSpace, Four, Next, Carried, Blank;
    LineAhead(data, p, rest, per, sep);
    if rest == [] {
      assert out + [] == out;
    } else {
      var n := if |rest| <= per then |rest| else per;
      DigitReads(n);
      assert rest[..n] + rest[n..] == rest;
      DecodesGroup(data, strict, p + 1, n, out, rest[..n], rest[n..], b, per, sep);
    }
  }

  /** What the decoder makes of the group at `from`, with `left` bytes to come on its line. */
  ghost function Onward(data: Bytes, strict: bool, from: nat, left: nat, out: Bytes): Result<Bytes, UuError>
    requires from <= |data| && left < 64
  {
    var q := Four(data, strict, from, [0, 0, 0, 0], 0);
    var take := if left < 3 then left else 3;
    var bytes := Carried(q.d)[..take];
    if q.bad.Some? then Err(q.bad.value)
    else if left == take && q.p < |data| then
      var (stray, to) := Next(data, strict, q.p);
      if stray.Some? then Err(stray.value) else DecodedFrom(data, strict, to, -1, out + bytes)
    else DecodedFrom(data, strict, q.p, left - take, out + bytes)
  }

  /** ...and from a group in it. */
  lemma {:induction false} DecodesGroup(data: Bytes, strict: bool, from: nat, left: nat, out: Bytes,
                                        line: Bytes, rest: Bytes, b: Bytes, per: nat, sep: Bytes)
    requires 3 <= per < 64 && per % 3 == 0 && Blank(sep) && from <= |data|
    requires left == |line| && 0 < left < 64 && InLine(data, from, line, rest, per, sep)
    requires out + (line + rest) == b && (rest != [] ==> |line| % 3 == 0)
    ensures Verdict(Onward(data, strict, from, left, out), strict, sep, |line| + |rest|, rest == [], b)
    decreases |data| - from, 0
  {
    hide Encoded, InLine, UuDigit, InAlphabet, Six, IsSpace, Four, Next, Carried, DecodedFrom, Blank, LineEnd;
    var n, q := First(line), Four(data, strict, from, [0, 0, 0, 0], 0);
    GroupTaken(data, strict, from, line, rest, per, sep);
    if q.bad.None? {
      var now := out + line[..n];
      assert line[..n] + line[n..] == line;
      assert now + (line[n..] + rest) == out + (line + rest);
      if |line| < 3 {
        assert line[n..] + rest == [] && now + [] == now;
        EndOfData(data, strict, now);
      } else if |line| > 3 {
        assert line[3..] != [];
        MoreGroups(data, q.p, line[3..], rest, per, sep);
        DecodesGroup(data, strict, q.p, left - 3, now, line[3..], rest, b, per, sep);
        OnwardIs(data, strict, q.p, left - 3, now);
      } else {
        assert line[n..] + rest == rest;
        LineDone(data, strict, q.p, now, rest, b, per, sep);
      }
    }
  }

  lemma EndOfData(data: Bytes, strict: bool, out: Bytes)
    ensures DecodedFrom(data, strict, |data|, 0, out) == Ok(out)
  {
  }

  lemma OnwardIs(data: Bytes, strict: bool, from: nat, left: nat, out: Bytes)
    requires from < |data| && 0 < left < 64
    ensures DecodedFrom(data, strict, from, left, out) == Onward(data, strict, from, left, out)
  {
    hide Four, Next, Carried, Six, IsSpace, InAlphabet;
  }

  /** More groups are more data. */
  lemma MoreGroups(data: Bytes, p: nat, line: Bytes, rest: Bytes, per: nat, sep: Bytes)
    requires InLine(data, p, line, rest, per, sep) && line != []
    ensures p < |data|
  {
    hide Group;
    assert |Groups(line)| > 0;
  }

  /** A line whose groups are whole has come to its end. */
  lemma {:induction false} LineDone(data: Bytes, strict: bool, p: nat, out: Bytes, rest: Bytes, b: Bytes, per: nat, sep: Bytes)
    requires 3 <= per < 64 && per % 3 == 0 && Blank(sep) && p <= |data| && data[p..] == LineEnd(rest, per, sep) && out + rest == b
    ensures
      var r := if p < |data| then
          (var (stray, to) := Next(data, strict, p);
           if stray.Some? then Err(stray.value) else DecodedFrom(data, strict, to, -1, out))
        else DecodedFrom(data, strict, p, 0, out);
      Verdict(r, strict, sep, 3 + |rest|, rest == [], b)
    decreases |data| - p, 2
  {
    hide Encoded, UuDigit, InAlphabet, Six, IsSpace, Four, Next, Carried, DecodedFrom, Blank, BlanksTo;
    var to := p + |sep|;
    LineEnds(data, p, rest, per, sep);
    if p == |data| {
      EndOfData(data, strict, out);
      assert out + [] == out;
    } else {
      DecodesLines(data, strict, to, out, rest, b, per, sep);
      if strict {
        StrictNext(data, p, to, out);
        assert sep == [NEWLINE] <==> to == p + 1 && data[p] == NEWLINE by { OneChar(sep, data, p); }
      } else {
        BlanksNext(data, p, to);
        BlanksPassed(data, Next(data, false, p).1, to, out);
      }
    }
  }

  lemma OneChar(sep: Bytes, data: Bytes, p: nat)
    requires p + |sep| <= |data| && data[p..p + |sep|] == sep && p < |data|
    ensures sep == [NEWLINE] <==> |sep| == 1 && data[p] == NEWLINE
  {
    if |sep| == 1 { assert data[p] == data[p..p + 1][0]; }
  }

  /**
   Decoding undoes encoding, for every line length and every separator that may be
   asked for.  With `strict` it does exactly when there is nothing between lines, or
   one newline and whole groups, or there is one line that ends in a short group and
   no newline after it; a newline after a short group is refused as data cut short.
   */
  lemma DecodeOfEncode(b: Bytes, maxlen: Option<nat>, sep: Bytes, strict: bool)
    requires Blank(sep)
    ensures
      var (r, per) := (DecodedFrom(Encoded(b, PerLine(maxlen), sep), strict, 0, -1, []), PerLine(maxlen));
      && (!strict ==> r == Ok(b))
      && (r == Ok(b) <==>
           !strict || b == [] || sep == [] || if |b| % 3 == 0 then sep == [NEWLINE] else |b| <= per && NEWLINE !in sep)
      && (r != Ok(b) ==> r.Err?) && (strict && sep == [NEWLINE] && |b| % 3 != 0 ==> r == Err(ShortData))
  {
    hide Encoded, DecodedFrom, Blank;
    var data := Encoded(b, PerLine(maxlen), sep);
    assert data[0..] == data && [] + b == b;
    DecodesLines(data, strict, 0, [], b, b, PerLine(maxlen), sep);
  }
}
