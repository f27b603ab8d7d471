/** Base64: section 4 of RFC 4648. */
module TclBase64 {
  import opened Wrappers
  import opened TextCode

  const PAD: byte := 61

  // ----- the alphabet

  /** The digit of a value, in the order of the alphabet. */
  function Digit(v: nat): byte
    requires v < 64
  {
    if v < 26 then 65 + v
    else if v < 52 then 97 + (v - 26)
    else if v < 62 then 48 + (v - 52)
    else if v == 62 then 43
    else 47
  }

  function ValueOf(c: byte): (v: Option<nat>)
    ensures v.Some? ==> v.value < 64
  {
    if 65 <= c <= 90 then Some(c - 65)
    else if 97 <= c <= 122 then Some(c - 97 + 26)
    else if 48 <= c <= 57 then Some(c - 48 + 52)
    else if c == 43 then Some(62)
    else if c == 47 then Some(63)
    else None
  }

  lemma DigitHasValue(v: nat)
    requires v < 64
    ensures ValueOf(Digit(v)) == Some(v) && Digit(v) != PAD
  {
  }

  /** The digits are the capital letters, the small ones, the figures, a plus sign and a slash, in order. */
  lemma DigitsRun(v: nat)
    requires v < 63
    ensures Digit(0) == 'A' as int && Digit(25) == 'Z' as int && Digit(26) == 'a' as int && Digit(51) == 'z' as int
    ensures Digit(52) == '0' as int && Digit(61) == '9' as int && Digit(62) == '+' as int && Digit(63) == '/' as int
    ensures v != 25 && v != 51 && v < 61 ==> Digit(v + 1) == Digit(v) as int + 1
  {
  }

  predicate Counts(c: byte) {
    ValueOf(c).Some? || c == PAD
  }

  // ----- encoding

  /** Up to three bytes as a 24-bit number. */
  function Bits(group: Bytes): (v: nat)
    requires 0 < |group| <= 3
    ensures v < 0x100_0000
  {
    var b1: nat := if |group| > 1 then group[1] else 0;
    var b2: nat := if |group| > 2 then group[2] else 0;
    (group[0] as nat * 256 + b1) * 256 + b2
  }

  function Group(group: Bytes): (s: Bytes)
    requires 0 < |group| <= 3
    ensures |s| == 4
  {
    var v := Bits(group);
    [ Digit(v / 0x4_0000), Digit(v / 0x1000 % 64),
      if |group| > 1 then Digit(v / 64 % 64) else PAD,
      if |group| > 2 then Digit(v % 64) else PAD ]
  }

  function Digits(data: Bytes): Bytes {
    if data == [] then []
    else if |data| <= 3 then Group(data)
    else Group(data[..3]) + Digits(data[3..])
  }

  /** The four digits of three bytes are the same 24 bits, six to a digit. */
  lemma GroupIsBits(b: Bytes, v: seq<nat>)
    requires |b| == 3 && |v| == 4 && forall i :: 0 <= i < 4 ==> ValueOf(Group(b)[i]) == Some(v[i])
    ensures 0x1_0000 * b[0] as int + 256 * b[1] as int + b[2] as int == 0x4_0000 * v[0] + 0x1000 * v[1] + 64 * v[2] + v[3]
  {
    var n := Bits(b);
    forall i | 0 <= i < 4 ensures v[i] == n / Shift(i) % 64 {
      GroupAt(b, i);
      DigitHasValue(n / Shift(i) % 64);
    }
    BitsInThree(b);
    hide Bits, ValueOf, Group;
    assert v[0] == n / 0x4_0000 % 64 && v[1] == n / 0x1000 % 64 && v[2] == n / 64 % 64 && v[3] == n / 1 % 64;
    SixEach(n);
  }

  lemma SixEach(n: nat)
    requires n < 0x100_0000
    ensures n == 0x4_0000 * (n / 0x4_0000 % 64) + 0x1000 * (n / 0x1000 % 64) + 64 * (n / 64 % 64) + n / 1 % 64
  {
    assert n / 0x4_0000 < 64 && n / 0x1000 == 64 * (n / 0x4_0000) + n / 0x1000 % 64 && n / 64 == 64 * (n / 0x1000) + n / 64 % 64;
  }

  lemma BitsInThree(b: Bytes)
    requires |b| == 3
    ensures Bits(b) == 0x1_0000 * b[0] as int + 256 * b[1] as int + b[2] as int
  {
  }

  function Shift(i: nat): nat {
    if i == 0 then 0x4_0000 else if i == 1 then 0x1000 else if i == 2 then 64 else 1
  }

  lemma GroupAt(group: Bytes, i: nat)
    requires 0 < |group| <= 3 && i < 4
    ensures Group(group)[i] == if i <= |group| then Digit(Bits(group) / Shift(i) % 64) else PAD
  {
  }

  lemma DigitsFront(data: Bytes, at: nat, end: nat)
    requires at < |data| && end == if at + 3 < |data| then at + 3 else |data|
    ensures Digits(data[at..]) == Group(data[at..end]) + Digits(data[end..])
  {
    hide Group;
    assert data[at..][..end - at] == data[at..end] && data[at..][end - at..] == data[end..];
    if at + 3 >= |data| { assert data[at..end] == data[at..] && Group(data[at..]) + [] == Group(data[at..]); }
  }

  method Base64Digits(data: Bytes) returns (out: Bytes)
    ensures out == Digits(data)
  {
    hide Group, Bits, Digits, Digit;
    out := [];
    var at := 0;
    assert data[0..] == data && [] + Digits(data) == Digits(data);
    while at < |data|
      invariant at <= |data| && out + Digits(data[at..]) == Digits(data)
    {
      var end := if at + 3 < |data| then at + 3 else |data|;
      var group := data[at..end];
      DigitsFront(data, at, end);
      var bits := Bits(group);
      ghost var before := out;
      for i := 0 to 4
        invariant out == before + Group(group)[..i]
      {
        GroupAt(group, i);
        assert Group(group)[..i + 1] == Group(group)[..i] + [Group(group)[i]];
        if i <= |group| {
          out := out + [Digit(bits / Shift(i) % 64)];
        } else {
          out := out + [PAD];
        }
      }
      assert Group(group)[..4] == Group(group);
      assert before + (Group(group) + Digits(data[end..])) == out + Digits(data[end..]);
      at := end;
    }
    assert data[at..] == [];
    NoDigits();
    assert out + [] == out;
  }

  lemma NoDigits()
    ensures Digits([]) == []
  {
  }

  // ----- wrapping

  function Wrapped(text: Bytes, max: nat, sep: Bytes): Bytes
    requires max > 0
  {
    if |text| <= max then text else text[..max] + sep + Wrapped(text[max..], max, sep)
  }

  /** Break an encoded body into lines; no length, or zero, is one line. */
  method Wrap(text: Bytes, maxlen: Option<nat>, sep: Bytes) returns (out: Bytes)
    ensures out == if maxlen.None? || maxlen.value == 0 then text else Wrapped(text, maxlen.value, sep)
  {
    if maxlen.None? || maxlen.value == 0 { return text; }
    hide Wrapped;
    var max := maxlen.value;
    out := [];
    var at := 0;
    hide WrappedTo;
    NoLines(text, max, sep);
    while at + max < |text|
      invariant at <= |text| && WrappedTo(text, at, max, sep, out)
      decreases |text| - at
    {
      OneMoreLine(text, at, max, sep, out);
      out := out + text[at..at + max];
      out := out + sep;
      at := at + max;
    }
    AllLines(text, at, max, sep, out);
    out := out + text[at..];
  }

  /** `out` is the first `at` characters in lines. */
  ghost predicate WrappedTo(text: Bytes, at: nat, max: nat, sep: Bytes, out: Bytes) {
    max > 0 && at <= |text| && out + Wrapped(text[at..], max, sep) == Wrapped(text, max, sep)
  }

  lemma NoLines(text: Bytes, max: nat, sep: Bytes)
    requires max > 0
    ensures WrappedTo(text, 0, max, sep, [])
  {
    assert text[0..] == text && [] + Wrapped(text, max, sep) == Wrapped(text, max, sep);
  }

  lemma OneMoreLine(text: Bytes, at: nat, max: nat, sep: Bytes, out: Bytes)
    requires WrappedTo(text, at, max, sep, out) && at + max < |text|
    ensures WrappedTo(text, at + max, max, sep, (out + text[at..at + max]) + sep)
  {
    OneLine(text, at, max, sep);
    hide Wrapped;
    JoinLines(out, text[at..at + max], sep, Wrapped(text[at + max..], max, sep));
  }

  lemma AllLines(text: Bytes, at: nat, max: nat, sep: Bytes, out: Bytes)
    requires WrappedTo(text, at, max, sep, out) && at + max >= |text|
    ensures out + text[at..] == Wrapped(text, max, sep)
  {
    LastLine(text[at..], max, sep);
  }

  lemma JoinLines(a: Bytes, b: Bytes, c: Bytes, d: Bytes)
    ensures ((a + b) + c) + d == a + (b + c + d)
  {
  }

  lemma OneLine(text: Bytes, at: nat, max: nat, sep: Bytes)
    requires max > 0 && at + max < |text|
    ensures Wrapped(text[at..], max, sep) == text[at..at + max] + sep + Wrapped(text[at + max..], max, sep)
  {
    assert text[at..][..max] == text[at..at + max] && text[at..][max..] == text[at + max..];
  }

  lemma LastLine(text: Bytes, max: nat, sep: Bytes)
    requires max > 0 && |text| <= max
    ensures Wrapped(text, max, sep) == text
  {
  }

  // ----- decoding

  /** The characters of a text that count. */
  function Filter(s: Bytes): Bytes {
    if s == [] then []
    else if Counts(s[0]) then [s[0]] + Filter(s[1..])
    else Filter(s[1..])
  }

  /** The characters of the first block before its padding; no more count once that has begun. */
  function Full(s: Bytes): (q: nat)
    ensures 1 <= q <= 4 && (s != [] ==> q <= |s|)
  {
    if |s| < 2 || s[1] == PAD then 1
    else if |s| < 3 || s[2] == PAD then 2
    else if |s| < 4 || s[3] == PAD then 3
    else 4
  }

  /** The first block, its padding written out. */
  function First(s: Bytes): (block: Bytes)
    requires s != []
    ensures |block| == 4
  {
    (s[..Full(s)] + [PAD, PAD, PAD])[..4]
  }

  /** The bytes of a run of characters that count: blocks of four, up to the first padding. */
  function Decoded(s: Bytes): Bytes
    decreases |s|
  {
    if s == [] then []
    else if Full(s) == 4 then Block(First(s)) + Decoded(s[4..])
    else Block(First(s))[..Full(s) - 1]
  }

  /** What strict decoding accepts: whole blocks, and a last one of two or three characters whose padding may be missing. */
  predicate Strict(s: Bytes)
    decreases |s|
  {
    s == [] || (StrictBlock(s) && if Full(s) == 4 then Strict(s[4..]) else |s| <= 4)
  }

  predicate StrictBlock(s: Bytes) {
    && Full(s) >= 2
    && (forall k :: 0 <= k < Full(s) && k < |s| ==> ValueOf(s[k]).Some?)
    && (forall k :: Full(s) <= k < 4 && k < |s| ==> s[k] == PAD)
  }

  /** Text that is accepted strictly has no other characters. */
  lemma {:induction false} StrictCounts(s: Bytes)
    requires Strict(s)
    ensures Filter(s) == s
    decreases |s|
  {
    if s != [] {
      var n := if |s| < 4 then |s| else 4;
      forall k | 0 <= k < |s[..n]| ensures Counts(s[..n][k]) {
        assert ValueOf(s[k]).Some? || s[k] == PAD;
      }
      hide ValueOf, StrictBlock, Full;
      AllCount(s[..n]);
      assert |s| <= 4 ==> s[n..] == [];
      StrictCounts(s[n..]);
      FilterAppend(s[..n], s[n..]);
      assert s[..n] + s[n..] == s;
    }
  }

  /** What is missing of the padding of some characters of the alphabet. */
  function Padding(n: nat): Bytes {
    if n % 4 == 2 then [PAD, PAD] else if n % 4 == 3 then [PAD] else []
  }

  /**
   Strictly, characters of the alphabet with no padding are refused only when one
   is left over, and otherwise decode as if they were padded.
   */
  lemma {:induction false} StrictWithoutPadding(s: Bytes)
    requires forall k :: 0 <= k < |s| ==> ValueOf(s[k]).Some?
    ensures Strict(s) <==> |s| % 4 != 1
    ensures |s| % 4 != 1 ==> Strict(s + Padding(|s|)) && Decoded(s) == Decoded(s + Padding(|s|))
    ensures |Decoded(s)| == |s| / 4 * 3 + (if |s| % 4 >= 2 then |s| % 4 - 1 else 0)
    decreases |s|
  {
    if |s| >= 4 {
      assert forall k :: 0 <= k < |s| - 4 ==> s[4..][k] == s[k + 4];
      hide *;
      StrictWithoutPadding(s[4..]);
      OneBlockMore(|s|, |s[4..]|);
      PaddedMore(s, s + Padding(|s|));
    } else {
      StrictEnd(s);
    }
  }

  /** A block more at the front changes nothing of the rest. */
  lemma PaddedMore(s: Bytes, padded: Bytes)
    requires |s| >= 4 && padded == s + Padding(|s|) && forall k :: 0 <= k < |s| ==> ValueOf(s[k]).Some?
    ensures Strict(s) <==> Strict(s[4..])
    ensures Strict(padded) <==> Strict(s[4..] + Padding(|s[4..]|))
    ensures Decoded(s) == Block(s[..4]) + Decoded(s[4..]) && |Block(s[..4])| == 3
    ensures Decoded(padded) == Block(s[..4]) + Decoded(s[4..] + Padding(|s[4..]|))
  {
    hide ValueOf, Block, Padding, Strict, Decoded;
    SamePadding(|s|);
    assert padded[..4] == s[..4] && padded[4..] == s[4..] + Padding(|s|);
    WholeFirst(s);
    WholeFirst(padded);
  }

  lemma OneBlockMore(n: nat, m: nat)
    requires n == m + 4
    ensures n % 4 == m % 4 && n / 4 * 3 == m / 4 * 3 + 3
  {
  }

  lemma SamePadding(n: nat)
    requires n >= 4
    ensures Padding(n) == Padding(n - 4)
  {
  }

  /** A whole block of the alphabet, and what follows. */
  lemma WholeFirst(s: Bytes)
    requires |s| >= 4 && forall k :: 0 <= k < 4 ==> ValueOf(s[..4][k]).Some?
    ensures Strict(s) <==> Strict(s[4..])
    ensures Decoded(s) == Block(s[..4]) + Decoded(s[4..])
  {
    forall k | 0 <= k < 4 ensures ValueOf(s[k]).Some? && s[k] != PAD {
      assert s[k] == s[..4][k];
      NotPad(s[k]);
    }
    hide ValueOf, Block;
    assert First(s) == s[..4];
  }

  lemma StrictEnd(s: Bytes)
    requires |s| < 4 && forall k :: 0 <= k < |s| ==> ValueOf(s[k]).Some?
    ensures Strict(s) <==> |s| != 1
    ensures |s| != 1 ==> Strict(s + Padding(|s|)) && Decoded(s) == Decoded(s + Padding(|s|))
    ensures |Decoded(s)| == if |s| >= 2 then |s| - 1 else 0
  {
    forall k | 0 <= k < |s| ensures s[k] != PAD { NotPad(s[k]); }
    hide ValueOf, Block;
    var padded := s + Padding(|s|);
    if |s| >= 2 {
      PadHasNoValue();
      assert Full(padded) == Full(s) == |s|;
      assert padded[..|s|] == s[..|s|];
    } else {
      assert padded == s;
    }
  }

  function ValueOrZero(c: byte): (v: nat)
    ensures v < 64
  {
    if ValueOf(c).Some? then ValueOf(c).value else 0
  }

  /** The value of the first characters of a block. */
  function Value(block: Bytes): nat {
    if block == [] then 0 else Value(block[..|block| - 1]) * 64 + ValueOrZero(block[|block| - 1])
  }

  function Block(block: Bytes): (b: Bytes)
    requires |block| == 4
    ensures |b| == 3
  {
    var v := ((ValueOrZero(block[0]) * 64 + ValueOrZero(block[1])) * 64 + ValueOrZero(block[2])) * 64 + ValueOrZero(block[3]);
    [v / 0x1_0000, v / 256 % 256, v % 256]
  }

  lemma ValueOfBlock(block: Bytes)
    requires |block| == 4
    ensures Block(block) == [Value(block) / 0x1_0000, Value(block) / 256 % 256, Value(block) % 256] && Value(block) < 0x100_0000
  {
    hide ValueOrZero;
    var a, b, c := block[..1], block[..2], block[..3];
    assert block[..4] == block && c[..2] == b && b[..1] == a && a[..0] == [];
    assert Value(a) == ValueOrZero(block[0]);
    assert Value(b) == Value(a) * 64 + ValueOrZero(block[1]);
    assert Value(c) == Value(b) * 64 + ValueOrZero(block[2]);
    assert Value(block) == Value(c) * 64 + ValueOrZero(block[3]);
  }

  lemma FilterFront(s: Bytes, p: nat)
    requires p < |s|
    ensures Filter(s[p..]) == if Counts(s[p]) then [s[p]] + Filter(s[p + 1..]) else Filter(s[p + 1..])
  {
    assert s[p..][1..] == s[p + 1..];
  }

  lemma {:induction false} FilterAppend(a: Bytes, b: Bytes)
    ensures Filter(a + b) == Filter(a) + Filter(b)
    decreases |a|
  {
    if a == [] {
      assert a + b == b;
    } else {
      assert (a + b)[1..] == a[1..] + b;
      FilterAppend(a[1..], b);
    }
  }

  lemma {:induction false} AllCount(s: Bytes)
    requires forall k :: 0 <= k < |s| ==> Counts(s[k])
    ensures Filter(s) == s
    decreases |s|
  {
    if s != [] {
      assert s == [s[0]] + s[1..];
      AllCount(s[1..]);
    }
  }

  /** What decoding makes of some text: with `strict` nothing is passed over. */
  ghost function View(strict: bool, s: Bytes): Bytes {
    if strict then s else Filter(s)
  }

  lemma ViewFront(strict: bool, data: Bytes, p: nat)
    requires p < |data|
    ensures View(strict, data[p..]) ==
      if strict || Counts(data[p]) then [data[p]] + View(strict, data[p + 1..]) else View(strict, data[p + 1..])
  {
    FilterFront(data, p);
    assert data[p..] == [data[p]] + data[p + 1..];
  }

  lemma NotPad(c: byte)
    ensures ValueOf(c).Some? ==> c != PAD
  {
  }

  /** One more character of a block. */
  lemma BlockStep(t: Bytes, i: nat)
    requires t != [] && i < 4
    ensures Value(First(t)[..i + 1]) == Value(First(t)[..i]) * 64 + ValueOrZero(First(t)[i])
    ensures First(t)[i] == if i < Full(t) then t[i] else PAD
  {
    assert First(t)[..i + 1][..i] == First(t)[..i];
  }

  /** The next character of the block is the padding exactly when the block is full. */
  lemma FullAt(t: Bytes, i: nat)
    requires 1 <= i < 4 && i <= Full(t)
    ensures i == Full(t) <==> i >= |t| || t[i] == PAD
  {
  }

  /** After `i` characters of the block `t`, the text from `p` on is the rest of it. */
  ghost predicate Reading(strict: bool, data: Bytes, t: Bytes, p: nat, value: nat, cut: nat, i: nat)
    requires p <= |data|
  {
    && i <= 4 && cut == (if i < Full(t) then 0 else i - Full(t))
    && (t == [] ==> i == 0)
    && (t != [] ==> value == Value(First(t)[..i]))
    && (cut == 0 || strict ==> View(strict, data[p..]) == if i <= |t| then t[i..] else [])
    && (strict ==> forall k :: 0 <= k < i && k < |t| ==> if k < Full(t) then ValueOf(t[k]).Some? else t[k] == PAD)
    && (strict && i > 1 ==> Full(t) > 1)
  }

  /** Read the characters of one block, and count the padding. */
  method ReadBlock(data: Bytes, strict: bool, start: nat, cut0: nat) returns (bad: Option<nat>, p: nat, value: nat, cut: nat)
    requires start < |data| && (strict ==> cut0 == 0)
    ensures start <= p <= |data| && (bad.None? ==> start < p) && (!strict ==> bad.None?)
    ensures cut0 > 0 ==> cut == cut0 + 3
    ensures
      var t := View(strict, data[start..]);
      cut0 == 0 ==>
        && (strict ==> (bad.None? <==> StrictBlock(t)))
        && (bad.None? ==>
             && cut == 4 - Full(t)
             && (Full(t) >= 2 ==> value == Value(First(t)))
             && (Full(t) == 4 || t == [] ==> View(strict, data[p..]) == if t == [] then [] else t[4..])
             && (strict && Full(t) < 4 ==> (p < |data| <==> |t| > 4)))
  {
    hide Filter, ValueOf, Value, First, Full, View;
    ghost var t := View(strict, data[start..]);
    p, value, cut, bad := start, 0, cut0, None;
    var i := 0;
    NothingYet(t);
    assert cut0 == 0 ==> Reading(strict, data, t, p, value, cut, i);
    while i < 4
      invariant i <= 4 && start <= p <= |data| && (i > 0 ==> p > start) && bad.None?
      invariant cut0 == 0 ==> Reading(strict, data, t, p, value, cut, i)
      invariant cut0 > 0 ==> i == 0 && cut == cut0
      decreases |data| - p, 4 - i
    {
      ghost var p0, cut1, value0 := p, cut, value;
      var c: byte := PAD;
      if p < |data| {
        p := p + 1;
        c := data[p - 1];
      } else if i <= 1 {
        if cut0 == 0 { BlockEnds(strict, data, t, p, value, cut, i); }
        if strict { return Some(p), p, value, cut; }
        cut := cut + 3;
        return;
      }
      var digit := ValueOf(c);
      PadHasNoValue();
      if cut > 0 {
        if c == PAD && i > 1 {
          value := value * 64;
          cut := cut + 1;
        } else if strict {
          Refused(data, t, p0, value, cut, i);
          return Some(p), p, value, cut;
        } else {
          if cut0 == 0 { PassedOver(data, t, p0, value, cut, i); }
          continue;
        }
      } else if digit.Some? {
        value := value * 64 + digit.value;
      } else if c == PAD && (!strict || i > 1) {
        value := value * 64;
        if i > 0 { cut := cut + 1; }
      } else if strict {
        Refused(data, t, p0, value, cut, i);
        return Some(p), p, value, cut;
      } else {
        if cut0 == 0 { PassedOver(data, t, p0, value, cut, i); }
        continue;
      }
      if cut0 == 0 { OneRead(strict, data, t, p0, value0, cut1, i, c, p, value, cut); }
      i := i + 1;
    }
    if cut0 == 0 { BlockRead(strict, data, t, p, value, cut); }
  }

  lemma NothingYet(t: Bytes)
    ensures t[0..] == t && (t != [] ==> Value(First(t)[..0]) == 0)
  {
  }

  /** A block that ends before its second character. */
  lemma BlockEnds(strict: bool, data: Bytes, t: Bytes, p: nat, value: nat, cut: nat, i: nat)
    requires p == |data| && i <= 1 && Reading(strict, data, t, p, value, cut, i)
    ensures cut == 0 && |t| <= 1 && Full(t) == 1 && View(strict, data[p..]) == []
  {
    assert data[p..] == [];
    assert i <= |t| && |t[i..]| == |t| - i;
  }

  /** A character that does not count, or comes after the padding. */
  lemma PassedOver(data: Bytes, t: Bytes, p: nat, value: nat, cut: nat, i: nat)
    requires p < |data| && i < 4 && Reading(false, data, t, p, value, cut, i) && (cut == 0 ==> !Counts(data[p]))
    ensures Reading(false, data, t, p + 1, value, cut, i)
  {
    hide Full, First, Value, Filter, ValueOf;
    ViewFront(false, data, p);
  }

  /** A character that strict decoding does not accept. */
  lemma Refused(data: Bytes, t: Bytes, p: nat, value: nat, cut: nat, i: nat)
    requires p < |data| && i < 4 && Reading(true, data, t, p, value, cut, i)
    requires ValueOf(data[p]).None? || cut > 0
    requires data[p] == PAD ==> i <= 1
    ensures !StrictBlock(t)
  {
    hide First, Value, ValueOf;
    assert data[p..] == t[i..] && t[i] == t[i..][0] == data[p];
  }

  /** One more character of the block, read or supplied at the end of the text. */
  lemma OneRead(strict: bool, data: Bytes, t: Bytes, p: nat, value: nat, cut: nat, i: nat, c: byte, p': nat, value': nat, cut': nat)
    requires p <= p' <= |data| && i < 4 && Reading(strict, data, t, p, value, cut, i)
    requires if p < |data| then p' == p + 1 && c == data[p] else p' == p && c == PAD && i > 1
    requires Counts(c) && (cut > 0 || strict ==> c == PAD ==> i > 1) && (cut > 0 ==> c == PAD)
    requires value' == value * 64 + ValueOrZero(c) && cut' == if cut > 0 || (c == PAD && i > 0) then cut + 1 else 0
    ensures Reading(strict, data, t, p', value', cut', i + 1)
  {
    NotPad(c);
    PadHasNoValue();
    NextOf(strict, data, t, p, value, cut, i, c);
    BlockStep(t, i);
    if cut == 0 && i > 0 { FullAt(t, i); }
    hide Value, ValueOf, Filter, View, First;
  }

  /** The character read is the next of the block, when there is one. */
  lemma NextOf(strict: bool, data: Bytes, t: Bytes, p: nat, value: nat, cut: nat, i: nat, c: byte)
    requires p <= |data| && i < 4 && Reading(strict, data, t, p, value, cut, i)
    requires if p < |data| then c == data[p] && (strict || Counts(c)) else c == PAD && i > 1
    ensures t != []
    ensures (cut == 0 || strict) && p < |data| ==>
      i < |t| && t[i] == c && View(strict, data[p + 1..]) == t[i + 1..]
    ensures (cut == 0 || strict) && p == |data| ==> i >= |t| && View(strict, data[p..]) == []
  {
    hide Value, ValueOf, Filter;
    if p < |data| {
      ViewFront(strict, data, p);
      if cut == 0 || strict {
        assert i < |t| && t[i] == t[i..][0] == c && t[i + 1..] == t[i..][1..];
      }
    } else {
      ViewEnd(strict, data);
    }
  }

  lemma ViewEnd(strict: bool, data: Bytes)
    ensures View(strict, data[|data|..]) == []
  {
  }

  lemma BlockRead(strict: bool, data: Bytes, t: Bytes, p: nat, value: nat, cut: nat)
    requires p <= |data| && Reading(strict, data, t, p, value, cut, 4)
    ensures t != [] && cut == 4 - Full(t) && value == Value(First(t)) && (strict ==> StrictBlock(t))
    ensures Full(t) == 4 ==> View(strict, data[p..]) == t[4..]
    ensures strict && Full(t) < 4 ==> (p < |data| <==> |t| > 4)
  {
    hide Value, ValueOf, Filter;
    assert First(t)[..4] == First(t);
  }

  /**
   Decode base64.  Without `strict` anything outside the alphabet is passed over,
   and nothing after the padding counts; with it such a character, a single one
   left over, or anything after the padding is refused, at the position given.
   */
  method DecodeBase64(data: Bytes, strict: bool) returns (r: Result<Bytes, nat>)
    ensures r.Ok? <==> (strict ==> Strict(data))
    ensures r.Ok? ==> r.value == Decoded(Filter(data))
  {
    hide Filter, ValueOf, Block, Value, Decoded, Strict, StrictBlock, First, View;
    ghost var all := Decoded(View(strict, data));
    var out: Bytes := [];
    var cut: nat, p: nat := 0, 0;
    assert data[0..] == data && [] + all == all;
    while p < |data|
      invariant p <= |data|
      invariant strict ==> (Strict(data) <==> cut > 0 || Strict(data[p..])) && (cut > 0 ==> p == |data|)
      invariant cut == 0 ==> all == out + Decoded(View(strict, data[p..]))
      invariant cut > 0 ==> cut <= |out| && all == out[..|out| - cut]
      decreases |data| - p
    {
      ghost var t, before, cut0 := View(strict, data[p..]), out, cut;
      StrictSame(strict, data, p);
      var bad, value;
      bad, p, value, cut := ReadBlock(data, strict, p, cut);
      if strict { StrictStep(t); }
      if bad.Some? { return Err(bad.value); }
      out := out + [value / 0x1_0000 % 256, value / 256 % 256, value % 256];
      if cut0 > 0 {
        assert out[..|out| - cut] == before[..|before| - cut0];
      } else {
        if Full(t) >= 2 { BytesOfValue(First(t)); }
        if cut == 0 {
          WholeBlock(t, before, out);
        } else {
          LastBlock(t, before, out[|before|..]);
          assert before + out[|before|..] == out;
        }
        if cut == 0 { assert strict ==> data[p..] == t[4..] by { StrictSame(strict, data, p); } }
      }
      // With `strict` nothing may follow the padding.
      if cut > 0 && p < |data| && strict { return Err(p); }
    }
    ViewEnd(strict, data);
    NothingDecoded();
    assert data[p..] == [];
    if strict && Strict(data) { StrictCounts(data); }
    StrictSame(strict, data, 0);
    assert cut == 0 ==> out + [] == out && out[..|out|] == out;
    r := Ok(out[..if cut <= |out| then |out| - cut else 0]);
  }

  lemma StrictSame(strict: bool, data: Bytes, p: nat)
    requires p <= |data|
    ensures strict ==> View(strict, data[p..]) == data[p..]
    ensures !strict ==> View(strict, data[p..]) == Filter(data[p..])
    ensures data[0..] == data
  {
  }

  lemma StrictStep(t: Bytes)
    requires t != []
    ensures Strict(t) <==> StrictBlock(t) && if Full(t) == 4 then Strict(t[4..]) else |t| <= 4
  {
  }

  /** What a whole block adds. */
  lemma WholeBlock(t: Bytes, before: Bytes, out: Bytes)
    requires Full(t) == 4 && out == before + Block(First(t))
    ensures |t| >= 4 && before + Decoded(t) == out + Decoded(t[4..])
  {
    DecodedStep(t);
    hide *;
    Associate(before, Block(First(t)), Decoded(t[4..]));
  }

  lemma Associate(a: Bytes, b: Bytes, c: Bytes)
    ensures a + (b + c) == a + b + c
  {
  }

  /** What the last block adds. */
  lemma LastBlock(t: Bytes, before: Bytes, bytes: Bytes)
    requires Full(t) < 4 && |bytes| == 3 && (Full(t) >= 2 ==> bytes == Block(First(t)))
    ensures before + Decoded(t) == (before + bytes)[..|before| + Full(t) - 1]
  {
    DecodedStep(t);
    hide *;
    FrontOf(before, bytes, Full(t) - 1);
  }

  lemma FrontOf(a: Bytes, b: Bytes, n: nat)
    requires n <= |b|
    ensures a + b[..n] == (a + b)[..|a| + n]
  {
  }

  lemma DecodedStep(t: Bytes)
    ensures Full(t) == 4 ==> |t| >= 4 && Decoded(t) == Block(First(t)) + Decoded(t[4..])
    ensures 2 <= Full(t) < 4 ==> t != [] && Decoded(t) == Block(First(t))[..Full(t) - 1]
    ensures Full(t) == 1 ==> Decoded(t) == []
  {
    hide Block, First;
  }

  lemma BytesOfValue(block: Bytes)
    requires |block| == 4
    ensures
      var v := Value(block);
      Block(block) == [v / 0x1_0000 % 256, v / 256 % 256, v % 256]
  {
    hide Value, Block;
    ValueOfBlock(block);
  }

  lemma NothingDecoded()
    ensures Filter([]) == [] && Decoded([]) == [] && Strict([])
  {
  }

  // ----- the round trip

  lemma BlockOfGroup(group: Bytes)
    requires 0 < |group| <= 3
    ensures
      var s := Group(group);
      && ValueOf(s[0]).Some? && ValueOf(s[1]).Some?
      && (if |group| > 1 then ValueOf(s[2]).Some? else s[2] == PAD && s[3] == PAD)
      && (if |group| > 2 then ValueOf(s[3]).Some? else s[3] == PAD)
      && Block(s)[..|group|] == group
  {
    var v := Bits(group);
    DigitHasValue(v / 0x4_0000);
    DigitHasValue(v / 0x1000 % 64);
    DigitHasValue(v / 64 % 64);
    DigitHasValue(v % 64);
    NotPad(Digit(v / 64 % 64));
    hide Digit, ValueOf;
    PadHasNoValue();
    SixBits(v);
    BitsAre(group);
    var s := Group(group);
    var w := ((ValueOrZero(s[0]) * 64 + ValueOrZero(s[1])) * 64 + ValueOrZero(s[2])) * 64 + ValueOrZero(s[3]);
    assert w == v;
  }

  lemma BitsAre(group: Bytes)
    requires 0 < |group| <= 3
    ensures
      var v := Bits(group);
      && v / 0x1_0000 == group[0]
      && (if |group| > 1 then v / 256 % 256 == group[1] else v / 64 % 64 == 0 && v % 64 == 0)
      && (if |group| > 2 then v % 256 == group[2] else v % 64 == 0)
  {
    var b1: nat := if |group| > 1 then group[1] else 0;
    var b2: nat := if |group| > 2 then group[2] else 0;
    ThreeBytes(group[0], b1, b2);
  }

  lemma ThreeBytes(a: nat, b: nat, c: nat)
    requires a < 256 && b < 256 && c < 256
    ensures
      var v := (a * 256 + b) * 256 + c;
      v / 0x1_0000 == a && v / 256 % 256 == b && v % 256 == c && (c == 0 ==> v % 64 == 0) && (b == 0 && c == 0 ==> v / 64 % 64 == 0)
  {
    if c == 0 { assert (a * 256 + b) * 256 == 64 * (4 * (a * 256 + b)); }
  }

  lemma PadHasNoValue()
    ensures ValueOf(PAD).None?
  {
  }

  lemma SixBits(v: nat)
    requires v < 0x100_0000
    ensures v == ((v / 0x4_0000 * 64 + v / 0x1000 % 64) * 64 + v / 64 % 64) * 64 + v % 64
  {
  }

  lemma {:induction false} DecodeOfDigits(data: Bytes)
    ensures Decoded(Digits(data)) == data && Strict(Digits(data))
    decreases |data|
  {
    hide Group, Block, ValueOf;
    if data != [] {
      var n := if |data| <= 3 then |data| else 3;
      var group, rest := data[..n], Digits(data[n..]);
      BlockOfGroup(group);
      var s := Digits(data);
      assert data[..n] + data[n..] == data;
      assert |data| <= 3 ==> data[n..] == [] && group == data && rest == [];
      assert s == Group(group) + rest;
      assert s[..4] == Group(group) && s[4..] == rest;
      DecodeOfDigits(data[n..]);
      GroupIsFirst(group, s);
    }
  }

  /** A group is the first block of what it begins. */
  lemma GroupIsFirst(group: Bytes, s: Bytes)
    requires 0 < |group| <= 3 && |s| >= 4 && s[..4] == Group(group)
    ensures Full(s) == |group| + 1 && First(s) == Group(group) && StrictBlock(s)
    ensures Block(First(s))[..|group|] == group
  {
    BlockOfGroup(group);
    hide Group, Block, ValueOf;
    assert forall k :: 0 <= k < 4 ==> s[k] == s[..4][k];
    PadHasNoValue();
    assert First(s) == s[..4];
  }

  lemma {:induction false} DigitsCount(data: Bytes)
    ensures Filter(Digits(data)) == Digits(data)
    decreases |data|
  {
    hide Group, ValueOf;
    if data != [] {
      var n := if |data| <= 3 then |data| else 3;
      var group := data[..n];
      BlockOfGroup(group);
      AllCount(Group(group));
      DigitsCount(data[n..]);
      assert |data| <= 3 ==> data[n..] == [] && group == data;
      FilterAppend(Group(group), Digits(data[n..]));
      assert Digits(data) == Group(group) + Digits(data[n..]);
    }
  }

  lemma {:induction false} WrapIsFiltered(text: Bytes, max: nat, sep: Bytes)
    requires max > 0 && Filter(sep) == []
    ensures Filter(Wrapped(text, max, sep)) == Filter(text)
    decreases |text|
  {
    if |text| > max {
      var line, rest := text[..max], text[max..];
      WrapIsFiltered(rest, max, sep);
      FilterAppend(line + sep, Wrapped(rest, max, sep));
      FilterAppend(line, sep);
      FilterAppend(line, rest);
      assert line + rest == text;
    }
  }

  /** What a line length makes of an encoded body. */
  function Body(data: Bytes, maxlen: Option<nat>, sep: Bytes): Bytes {
    if maxlen.None? || maxlen.value == 0 then Digits(data) else Wrapped(Digits(data), maxlen.value, sep)
  }

  /**
   Decoding gives back what was encoded, at any line length and with any
   separator that does not count; and on one line `strict` decoding does too.
   */
  lemma EncodedReadsBack(data: Bytes, maxlen: Option<nat>, sep: Bytes)
    requires Filter(sep) == []
    ensures Decoded(Filter(Body(data, maxlen, sep))) == data
    ensures maxlen.None? || maxlen.value == 0 ==> Strict(Body(data, maxlen, sep))
  {
    DecodeOfDigits(data);
    DigitsCount(data);
    if maxlen.Some? && maxlen.value > 0 { WrapIsFiltered(Digits(data), maxlen.value, sep); }
  }
}
