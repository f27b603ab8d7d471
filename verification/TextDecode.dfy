/**
 The decoders, each one pass over a buffer, and the measure of how much of a
 buffer's end is the start of a character whose rest has not arrived.
 */
module TextDecode {
  import opened Wrappers
  import opened TextCode

  /** The text decoded so far, and what the rest stands for. */
  function Onto(out: Text, rest: Option<Text>): Option<Text> {
    if rest.None? then None else Some(out + rest.value)
  }

  lemma OntoNothing(r: Option<Text>)
    ensures Onto([], r) == r
  {
    if r.Some? { assert [] + r.value == r.value; }
  }

  /** Decoding one more character. */
  lemma OntoStep(enc: Encoding, src: Bytes, at: nat, out: Text)
    requires at < |src|
    ensures
      var one := ReadOne(enc, src[at..]);
      Onto(out, ReadAll(enc, src[at..])) ==
        if one.None? then None else Onto(out + [one.value.cp], ReadAll(enc, src[at + one.value.len..]))
  {
    hide ReadOne;
    var one := ReadOne(enc, src[at..]);
    if one.Some? {
      assert src[at..][one.value.len..] == src[at + one.value.len..];
      var rest := ReadAll(enc, src[at + one.value.len..]);
      if rest.Some? { assert out + ([one.value.cp] + rest.value) == (out + [one.value.cp]) + rest.value; }
    }
  }

  /** `out` is the text of the first `at` bytes, as far as `src` is valid. */
  ghost predicate SoFar(enc: Encoding, src: Bytes, at: nat, out: Text) {
    at <= |src| && ReadAll(enc, src) == Onto(out, ReadAll(enc, src[at..]))
  }

  lemma AtStart(enc: Encoding, src: Bytes)
    ensures SoFar(enc, src, 0, [])
  {
    assert src[0..] == src;
    OntoNothing(ReadAll(enc, src));
  }

  lemma OneOn(enc: Encoding, src: Bytes, at: nat, out: Text)
    requires SoFar(enc, src, at, out) && at < |src|
    ensures
      var one := ReadOne(enc, src[at..]);
      if one.None? then ReadAll(enc, src) == None else SoFar(enc, src, at + one.value.len, out + [one.value.cp])
  {
    hide ReadOne;
    OntoStep(enc, src, at, out);
  }

  lemma AtEnd(enc: Encoding, src: Bytes, out: Text)
    requires SoFar(enc, src, |src|, out)
    ensures ReadAll(enc, src) == Some(out)
  {
    assert out + [] == out;
  }

  /** The text of `src`, or where a strict conversion stops. */
  ghost predicate Decoded(enc: Encoding, src: Bytes, out: Text, stop: Option<nat>) {
    if stop.None? then ReadAll(enc, src) == Some(out) else stop.value <= |src| && ReadAll(enc, src) == None
  }

  method TableToUtf(table: Table, src: Bytes) returns (out: Text, stop: Option<nat>)
    ensures Decoded(ByTable(table), src, out, stop)
  {
    hide SoFar, ReadAll;
    ghost var enc := ByTable(table);
    out, stop := [], None;
    var at := 0;
    AtStart(enc, src);
    while at < |src|
      invariant at <= |src| && SoFar(enc, src, at, out)
    {
      OneOn(enc, src, at, out);
      var b := src[at];
      assert src[at..][0] == b && (at + 1 < |src| ==> src[at..][1] == src[at + 1]);
      var consumed := 1;
      var ch;
      if table.prefix[b] {
        if at + 1 >= |src| { return out, Some(at); }
        consumed := 2;
        ch := Entry(table.toUnicode, b, src[at + 1]);
      } else {
        ch := Entry(table.toUnicode, 0, b);
      }
      if ch == 0 && b != 0 { return out, Some(at + consumed - 1); }
      out := out + [AsChar(ch)];
      at := at + consumed;
    }
    AtEnd(enc, src, out);
  }

  method Utf32ToUtf(src: Bytes, le: bool) returns (out: Text, stop: Option<nat>)
    ensures Decoded(Utf32(le), src, out, stop)
  {
    hide SoFar, ReadAll, Quad;
    ghost var enc := Utf32(le);
    out, stop := [], None;
    var whole := |src| - |src| % 4;
    var at := 0;
    AtStart(enc, src);
    while at < whole
      invariant at <= whole && at % 4 == 0 && SoFar(enc, src, at, out)
    {
      OneOn(enc, src, at, out);
      var cp := Quad(src[at..], le);
      if cp > 0x10FFFF || Surrogate(cp) { return out, Some(at); }
      out := out + [cp];
      at := at + 4;
    }
    if whole != |src| {
      OneOn(enc, src, at, out);
      return out, Some(whole);
    }
    AtEnd(enc, src, out);
  }

  /** What is read at `at`, in terms of the units there. */
  lemma Utf16At(src: Bytes, at: nat, le: bool)
    requires at < |src|
    ensures
      var one := ReadOne(Utf16(le), src[at..]);
      if at + 2 > |src| then one.None?
      else
        var unit := Unit(src[at], src[at + 1], le);
        if !Surrogate(unit) then one == Some(Read(unit, 2))
        else if HighSurrogate(unit) && at + 4 <= |src| && LowSurrogate(Unit(src[at + 2], src[at + 3], le)) then
          one == Some(Read(Paired(unit, Unit(src[at + 2], src[at + 3], le)), 4))
        else one.None?
  {
    var s := src[at..];
    assert forall k :: 0 <= k < |s| ==> s[k] == src[at + k];
  }

  /** `utf-16` and `ucs-2`: a high surrogate waits in `pending` for its low one. */
  method Utf16ToUtf(src: Bytes, le: bool) returns (out: Text, stop: Option<nat>)
    ensures Decoded(Utf16(le), src, out, stop) && Decoded(Ucs2(le), src, out, stop)
  {
    hide Paired, Unit, ReadAll, ReadOne, SoFar;
    ghost var enc := Utf16(le);
    UcsIsUtf(src, le);
    out, stop := [], None;
    var whole := |src| - |src| % 2;
    Even(|src|);
    var at := 0;
    ghost var k, half := 0, |src| / 2;
    var pending: Option<nat> := None;
    AtStart(enc, src);
    while at < whole
      invariant at == 2 * k && k <= half && whole == 2 * half
      invariant pending.None? ==> SoFar(enc, src, at, out)
      invariant pending.Some? ==>
        && at >= 2 && pending.value == Unit(src[at - 2], src[at - 1], le) && HighSurrogate(pending.value)
        && SoFar(enc, src, at - 2, out)
    {
      var unit := Unit(src[at], src[at + 1], le);
      if pending.Some? {
        OneOn(enc, src, at - 2, out);
        Utf16At(src, at - 2, le);
        if LowSurrogate(unit) {
          out := out + [Paired(pending.value, unit)];
          pending := None;
          at, k := at + 2, k + 1;
          continue;
        }
        return out, Some(at - 2);
      }
      OneOn(enc, src, at, out);
      Utf16At(src, at, le);
      if HighSurrogate(unit) {
        pending := Some(unit);
        at, k := at + 2, k + 1;
        continue;
      }
      if Surrogate(unit) { return out, Some(at); }
      out := out + [unit];
      at, k := at + 2, k + 1;
    }
    if pending.Some? {
      OneOn(enc, src, whole - 2, out);
      Utf16At(src, whole - 2, le);
      return out, Some(whole - 2);
    }
    if whole != |src| {
      OneOn(enc, src, whole, out);
      Utf16At(src, whole, le);
      return out, Some(whole);
    }
    AtEnd(enc, src, out);
  }

  lemma Even(n: nat)
    ensures n - n % 2 == 2 * (n / 2) && n <= 2 * (n / 2) + 1
  {
  }

  lemma {:induction false} UcsIsUtf(src: Bytes, le: bool)
    ensures ReadAll(Ucs2(le), src) == ReadAll(Utf16(le), src)
    decreases |src|
  {
    hide ReadUtf16;
    if src != [] && ReadUtf16(src, le).Some? { UcsIsUtf(src[ReadUtf16(src, le).value.len..], le); }
  }

  /** What is read where no surrogate waits, in terms of the sequence there. */
  lemma Utf8At(enc: Encoding, s: Bytes)
    requires s != [] && (enc == Utf8 || enc == Cesu8)
    ensures
      var d := DecodeUtf8(s);
      if d.None? then ReadOne(enc, s) == None
      else
        && (Surrogate(d.value.cp) ==> d.value.len == 3)
        && if Surrogate(d.value.cp) then (enc == Utf8 || LowSurrogate(d.value.cp) ==> ReadOne(enc, s) == None)
           else ReadOne(enc, s) == if enc == Cesu8 && d.value.cp > 0xFFFF then None else d
  {
    SurrogatesAreThree(s);
  }

  /** What is read after a high surrogate. */
  lemma CesuAt(s: Bytes)
    requires s != [] && DecodeUtf8(s).Some? && HighSurrogate(DecodeUtf8(s).value.cp)
    ensures
      var d := DecodeUtf8(s).value;
      && d.len == 3
      && if |s| == 3 then ReadOne(Cesu8, s) == None
         else
           var low := DecodeUtf8(s[3..]);
           ReadOne(Cesu8, s) == if low.None? || !LowSurrogate(low.value.cp) then None
                                else Some(Read(Paired(d.cp, low.value.cp), 3 + low.value.len))
  {
    SurrogatesAreThree(s);
  }

  /** `utf-8`, and `cesu-8`, in which a high surrogate waits in `pending` for its low one. */
  method Utf8ToUtf(src: Bytes, utf: bool) returns (out: Text, stop: Option<nat>)
    ensures Decoded(if utf then Utf8 else Cesu8, src, out, stop)
  {
    hide DecodeUtf8, Paired, ReadAll, ReadOne, SoFar;
    ghost var enc := if utf then Utf8 else Cesu8;
    out, stop := [], None;
    var at := 0;
    var pending: Option<nat> := None;
    AtStart(enc, src);
    while at < |src|
      invariant at <= |src|
      invariant pending.None? ==> SoFar(enc, src, at, out)
      invariant pending.Some? ==>
        && !utf && at >= 3 && DecodeUtf8(src[at - 3..]) == Some(Read(pending.value, 3)) && HighSurrogate(pending.value)
        && SoFar(enc, src, at - 3, out)
    {
      if pending.Some? {
        OneOn(enc, src, at - 3, out);
        CesuAt(src[at - 3..]);
        assert src[at - 3..][3..] == src[at..];
      } else {
        OneOn(enc, src, at, out);
      }
      Utf8At(enc, src[at..]);
      // The null of modified UTF-8 is an overlong form.
      if src[at] == 0xC0 && at + 1 < |src| && src[at + 1] == 0x80 {
        NoOverlong(src[at..]);
        return out, Some(at);
      }
      var d := DecodeUtf8(src[at..]);
      if d.None? { return out, Some(at); }
      var Read(cp, len) := d.value;
      if Surrogate(cp) {
        if utf { return out, Some(at); }
        if LowSurrogate(cp) {
          if pending.None? { return out, Some(at); }
          out := out + [Paired(pending.value, cp)];
          pending := None;
          at := at + len;
          continue;
        }
        if pending.Some? { return out, Some(at); }
        pending := Some(cp);
        at := at + len;
        continue;
      }
      if pending.Some? { return out, Some(at); }
      if !utf && cp > 0xFFFF { return out, Some(at); }
      out := out + [cp];
      at := at + len;
    }
    if pending.Some? {
      OneOn(enc, src, |src| - 3, out);
      CesuAt(src[|src| - 3..]);
      return out, Some(|src|);
    }
    AtEnd(enc, src, out);
  }

  lemma NoOverlong(s: Bytes)
    requires s != [] && (s[0] == 0xC0 || s[0] == 0xC1)
    ensures DecodeUtf8(s) == None
  {
  }

  lemma SurrogatesAreThree(s: Bytes)
    requires s != []
    ensures DecodeUtf8(s).Some? && Surrogate(DecodeUtf8(s).value.cp) ==> DecodeUtf8(s).value.len == 3
  {
  }

  method ToUtf(enc: Encoding, src: Bytes) returns (out: Text, stop: Option<nat>)
    ensures Decoded(enc, src, out, stop)
  {
    hide Decoded;
    match enc
    case Utf8 => out, stop := Utf8ToUtf(src, true);
    case Cesu8 => out, stop := Utf8ToUtf(src, false);
    case Utf16(le) => out, stop := Utf16ToUtf(src, le);
    case Ucs2(le) => out, stop := Utf16ToUtf(src, le);
    case Utf32(le) => out, stop := Utf32ToUtf(src, le);
    case ByTable(table) => out, stop := TableToUtf(table, src);
  }

  // ----- the incomplete end of a buffer

  /** After a character, the cut of the rest is the cut of the whole. */
  lemma CutMoves(enc: Encoding, src: Bytes, k: nat)
    requires src != [] && CutAt(enc, src, k)
    ensures
      var one := ReadOne(enc, src);
      if one.None? then k == 0 && Begins(enc, src) else one.value.len <= k && CutAt(enc, src[one.value.len..], k - one.value.len)
  {
    hide ReadOne;
    assert src == src[..k] + src[k..];
    if k == 0 {
      assert src[0..] == src;
      BeginningIsNoCharacter(enc, src);
    } else {
      ReadIsLocal(enc, src[..k], src[k..]);
      var one := ReadOne(enc, src).value;
      assert src[..k][one.len..] == src[one.len..][..k - one.len];
      assert src[one.len..][k - one.len..] == src[k..];
    }
  }

  /** What `tail` says of the end of `src`: it is what follows the cut, unless half a `cesu-8` pair has come. */
  ghost predicate Withheld(enc: Encoding, src: Bytes, tail: nat) {
    && tail <= |src| && tail <= 3
    && forall k: nat :: CutAt(enc, src, k) ==> if enc == Cesu8 && |src| - k >= 3 then tail < |src| - k else tail == |src| - k
  }

  /** The cuts of `src` are cuts of what follows `at`. */
  ghost predicate CutsAfter(enc: Encoding, src: Bytes, at: nat)
    requires at <= |src|
  {
    forall k: nat :: CutAt(enc, src, k) ==> at <= k && CutAt(enc, src[at..], k - at)
  }

  lemma CutsMove(enc: Encoding, src: Bytes, at: nat)
    requires at < |src| && CutsAfter(enc, src, at)
    ensures
      var one := ReadOne(enc, src[at..]);
      if one.Some? then CutsAfter(enc, src, at + one.value.len)
      else forall k: nat :: CutAt(enc, src, k) ==> k == at && Begins(enc, src[at..])
  {
    hide ReadOne, CutAt, Begins;
    var one := ReadOne(enc, src[at..]);
    forall k: nat | CutAt(enc, src, k)
      ensures if one.Some? then at + one.value.len <= k && CutAt(enc, src[at + one.value.len..], k - at - one.value.len)
              else k == at && Begins(enc, src[at..])
    {
      CutMoves(enc, src[at..], k - at);
      if one.Some? { assert src[at..][one.value.len..] == src[at + one.value.len..]; }
    }
  }

  method TableTail(table: Table, src: Bytes) returns (tail: nat)
    ensures Withheld(ByTable(table), src, tail)
  {
    hide CutAt, ReadOne, Begins;
    ghost var enc := ByTable(table);
    var at := 0;
    assert src[0..] == src;
    while at < |src|
      invariant at <= |src| && CutsAfter(enc, src, at)
    {
      CutsMove(enc, src, at);
      TableBegins(table, src[at..]);
      var b := src[at];
      if !table.prefix[b] {
        at := at + 1;
        continue;
      }
      if at + 1 >= |src| { return |src| - at; }
      at := at + 2;
    }
    NothingAfter(enc, src);
    return 0;
  }

  lemma NothingAfter(enc: Encoding, src: Bytes)
    requires CutsAfter(enc, src, |src|)
    ensures Withheld(enc, src, 0)
  {
  }

  /** What a table reads, and what can begin in one. */
  lemma TableBegins(table: Table, s: Bytes)
    requires s != []
    ensures Begins(ByTable(table), s) ==> |s| == 1 && table.prefix[s[0]]
    ensures
      var one := ReadOne(ByTable(table), s);
      one.Some? ==> one.value.len == if table.prefix[s[0]] then 2 else 1
  {
    if Begins(ByTable(table), s) {
      var ext :| Completes(ByTable(table), s, ext);
      assert (s + ext)[0] == s[0];
    }
  }

  method Utf8Tail(src: Bytes, utf: bool) returns (tail: nat)
    ensures Withheld(if utf then Utf8 else Cesu8, src, tail)
  {
    hide CutAt, ReadOne, Begins, DecodeUtf8, ReadAll;
    ghost var enc := if utf then Utf8 else Cesu8;
    var at := 0;
    // The last boundary: `at`, or before a high surrogate that waits for its low one.
    ghost var base: nat := 0;
    NoneBefore(enc, src);
    while at < |src|
      invariant base <= at <= |src| && CutsAfter(enc, src, base)
      invariant base == at || (!utf && at == base + 3 && HighFirst(src[base..]))
    {
      CutsMove(enc, src, base);
      if base == at {
        Boundary(enc, src[at..]);
      } else {
        assert src[base..][3..] == src[at..];
        HalfPair(src[base..]);
      }
      assert src[at..][0] == src[at];
      ghost var from := at;
      var lead := src[at];
      if lead == 0xC0 || lead == 0xC1 {
        NoOverlong(src[at..]);
        if at + 1 >= |src| { return 1; }
        at := at + if src[at + 1] == 0x80 then 2 else 1;
        base := at;
        continue;
      }
      var d := DecodeUtf8(src[at..]);
      if d.Some? {
        at := at + d.value.len;
        if base != from || !HighFirst(src[from..]) || utf { base := at; }
        continue;
      }
      var need := Need(lead);
      var have := |src| - at;
      var cut := have < need && forall k | at + 1 <= k < |src| :: Continuation(src[k]);
      assert cut == Truncated(src[at..]) by {
        assert forall k :: at <= k < |src| ==> src[k] == src[at..][k - at];
        assert forall k :: 0 <= k < have ==> src[at..][k] == src[at + k];
      }
      if cut { return have; }
      at := at + 1;
      base := at;
    }
    if base == at {
      NothingAfter(enc, src);
    } else {
      CutsMove(enc, src, base);
      HighAlone(src[base..]);
    }
    return 0;
  }

  lemma NoneBefore(enc: Encoding, src: Bytes)
    ensures CutsAfter(enc, src, 0)
  {
    assert src[0..] == src;
  }

  /** The bytes a sequence with this first byte takes. */
  function Need(lead: byte): nat {
    if 0xC2 <= lead < 0xE0 then 2 else if 0xE0 <= lead < 0xF0 then 3 else if 0xF0 <= lead < 0xF5 then 4 else 1
  }

  /** `s` begins with a whole high surrogate. */
  predicate HighFirst(s: Bytes) {
    s != [] && DecodeUtf8(s).Some? && DecodeUtf8(s).value.len == 3 && HighSurrogate(DecodeUtf8(s).value.cp)
  }

  /** `s` could be the start of a UTF-8 sequence that is not complete. */
  predicate Truncated(s: Bytes)
    requires s != []
  {
    |s| < Need(s[0]) && forall k | 1 <= k < |s| :: Continuation(s[k])
  }

  /** What is longer than `s` is not all there. */
  lemma Utf8Extends(s: Bytes, ext: Bytes)
    requires s != [] && DecodeUtf8(s + ext).Some?
    ensures
      var d := DecodeUtf8(s + ext).value;
      if d.len > |s| then DecodeUtf8(s).None? && Truncated(s) && (d.cp <= 0xFFFF ==> |s| < 3) else DecodeUtf8(s) == Some(d)
  {
    assert forall k :: 0 <= k < |s| ==> (s + ext)[k] == s[k];
  }

  /** At a boundary. */
  lemma Boundary(enc: Encoding, s: Bytes)
    requires s != [] && (enc == Utf8 || enc == Cesu8)
    ensures
      var one, d := ReadOne(enc, s), DecodeUtf8(s);
      one.Some? ==> d.Some? && one.value.len == if enc == Cesu8 && HighFirst(s) then 6 else d.value.len
    ensures Begins(enc, s) ==>
      if DecodeUtf8(s).Some? then enc == Cesu8 && HighFirst(s) else Truncated(s) && (enc == Cesu8 ==> |s| < 3)
  {
    if DecodeUtf8(s).Some? && Surrogate(DecodeUtf8(s).value.cp) {
      SurrogatesAreThree(s);
      if enc == Cesu8 && ReadOne(enc, s).Some? { SurrogatesAreThree(s[3..]); }
    }
    hide DecodeUtf8;
    if Begins(enc, s) {
      var ext :| Completes(enc, s, ext);
      Utf8Extends(s, ext);
      SurrogatesAreThree(s + ext);
    }
  }

  /** After the first half of a pair. */
  lemma HalfPair(s: Bytes)
    requires HighFirst(s) && |s| > 3
    ensures
      var one, d := ReadOne(Cesu8, s), DecodeUtf8(s[3..]);
      one.Some? ==> d.Some? && d.value.len == 3 && one.value.len == 6 && LowSurrogate(d.value.cp)
    ensures Begins(Cesu8, s) ==> DecodeUtf8(s[3..]).None? && Truncated(s[3..])
  {
    SurrogatesAreThree(s[3..]);
    if Begins(Cesu8, s) {
      var ext :| Completes(Cesu8, s, ext);
      Utf8Extends(s, ext);
      assert (s + ext)[3..] == s[3..] + ext;
      SurrogatesAreThree(s[3..] + ext);
      Utf8Extends(s[3..], ext);
    }
  }

  lemma HighAlone(s: Bytes)
    requires HighFirst(s) && |s| == 3
    ensures ReadOne(Cesu8, s).None?
  {
  }

  /** The tail of UTF-16: an odd byte, and a high surrogate before it. */
  method Utf16Tail(src: Bytes, le: bool) returns (tail: nat)
    ensures Withheld(Utf16(le), src, tail) && Withheld(Ucs2(le), src, tail)
  {
    var odd := |src| % 2;
    var units := |src| - odd;
    forall k: nat | CutAt(Utf16(le), src, k) || CutAt(Ucs2(le), src, k)
      ensures |src| - k == if units >= 2 && HighSurrogate(Unit(src[units - 2], src[units - 1], le)) then odd + 2 else odd
    {
      Utf16Cut(src, le, k);
    }
    if units >= 2 {
      var unit := Unit(src[units - 2], src[units - 1], le);
      if HighSurrogate(unit) { return odd + 2; }
    }
    return odd;
  }

  /** The first character of valid UTF-16 does not end in a high surrogate. */
  lemma Utf16First(src: Bytes, le: bool) returns (len: nat)
    requires src != [] && ReadAll(Utf16(le), src).Some?
    ensures (len == 2 || len == 4) && len <= |src| && ReadAll(Utf16(le), src[len..]).Some?
    ensures !HighSurrogate(Unit(src[len - 2], src[len - 1], le))
  {
    hide Unit, Paired;
    len := ReadUtf16(src, le).value.len;
  }

  lemma {:induction false} Utf16Whole(src: Bytes, le: bool)
    requires ReadAll(Utf16(le), src).Some?
    ensures |src| % 2 == 0 && (src != [] ==> !HighSurrogate(Unit(src[|src| - 2], src[|src| - 1], le)))
    decreases |src|
  {
    hide ReadUtf16, ReadAll, Unit, HighSurrogate;
    if src != [] {
      var len := Utf16First(src, le);
      var rest := src[len..];
      Utf16Whole(rest, le);
      if rest != [] { assert rest[|rest| - 2] == src[|src| - 2] && rest[|rest| - 1] == src[|src| - 1]; }
    }
  }

  lemma Utf16Begins(p: Bytes, le: bool)
    requires Begins(Utf16(le), p) || Begins(Ucs2(le), p)
    ensures |p| <= 3 && (|p| >= 2 ==> HighSurrogate(Unit(p[0], p[1], le)))
  {
    var enc := if Begins(Utf16(le), p) then Utf16(le) else Ucs2(le);
    var ext :| Completes(enc, p, ext);
    assert forall k :: 0 <= k < |p| ==> (p + ext)[k] == p[k];
  }

  lemma Utf16Cut(src: Bytes, le: bool, k: nat)
    requires CutAt(Utf16(le), src, k) || CutAt(Ucs2(le), src, k)
    ensures
      var odd := |src| % 2;
      var units := |src| - odd;
      |src| - k == if units >= 2 && HighSurrogate(Unit(src[units - 2], src[units - 1], le)) then odd + 2 else odd
  {
    UcsIsUtf(src[..k], le);
    Utf16Whole(src[..k], le);
    if k < |src| {
      Utf16Begins(src[k..], le);
    }
  }

  lemma {:induction false} Utf32Whole(src: Bytes, le: bool)
    requires ReadAll(Utf32(le), src).Some?
    ensures |src| % 4 == 0
    decreases |src|
  {
    if src != [] { Utf32Whole(src[4..], le); }
  }

  lemma Utf32Begins(p: Bytes, le: bool)
    requires Begins(Utf32(le), p)
    ensures |p| <= 3
  {
    hide Quad;
    var ext :| Completes(Utf32(le), p, ext);
  }

  lemma Remainder(k: nat, n: nat)
    requires k % 4 == 0 && k <= n <= k + 3
    ensures n % 4 == n - k
  {
  }

  lemma Utf32Tail(src: Bytes, le: bool)
    ensures Withheld(Utf32(le), src, |src| % 4)
  {
    hide ReadAll, Begins;
    forall k: nat | CutAt(Utf32(le), src, k) ensures |src| - k == |src| % 4 {
      Utf32Whole(src[..k], le);
      if k < |src| { Utf32Begins(src[k..], le); }
      Remainder(k, |src|);
    }
  }

  /** How many bytes at the end of `src` are the start of a character whose rest has not arrived. */
  method IncompleteTail(enc: Encoding, src: Bytes) returns (tail: nat)
    ensures Withheld(enc, src, tail)
  {
    hide Withheld;
    match enc
    case Utf8 => tail := Utf8Tail(src, true);
    case Cesu8 => tail := Utf8Tail(src, false);
    case Utf16(le) => tail := Utf16Tail(src, le);
    case Ucs2(le) => tail := Utf16Tail(src, le);
    case Utf32(le) =>
      tail := |src| % 4;
      Utf32Tail(src, le);
    case ByTable(table) => tail := TableTail(table, src);
  }

  // ----- decoding a stream

  /** Whether a buffer that ends in the middle of a character is decoded up to it. */
  predicate Separable(enc: Encoding, left: int) {
    enc == Cesu8 ==> left < 3
  }

  /**
   Decode as much of a channel's bytes as is complete.  A buffer of whole
   characters and the beginning of another is decoded up to that beginning,
   except that a `cesu-8` pair must not be divided after its first half.
   */
  method StreamDecode(enc: Encoding, src: Bytes) returns (r: Option<(Text, nat)>)
    ensures r.Some? ==> r.value.1 <= |src| <= r.value.1 + 3 && ReadAll(enc, src[..r.value.1]) == Some(r.value.0)
    ensures forall k: nat :: CutAt(enc, src, k) ==>
      r == if Separable(enc, |src| - k) then Some((ReadAll(enc, src[..k]).value, k)) else None
  {
    hide ReadAll, ReadOne;
    var tail := IncompleteTail(enc, src);
    var whole := |src| - tail;
    var text, stop := ToUtf(enc, src[..whole]);
    forall k: nat | CutAt(enc, src, k)
      ensures if Separable(enc, |src| - k) then k == whole else ReadAll(enc, src[..whole]) == None
    {
      if k < whole { PastTheCut(enc, src, k, whole); }
    }
    if stop.Some? { return None; }
    return Some((text, whole));
  }

  /** What goes beyond the cut but not to the end of the character there is not valid. */
  lemma PastTheCut(enc: Encoding, src: Bytes, k: nat, n: nat)
    requires CutAt(enc, src, k) && k < n <= |src|
    ensures ReadAll(enc, src[..n]) == None
  {
    var p := src[k..n];
    assert src[..n] == src[..k] + p && p + src[n..] == src[k..];
    BeginningIsNoCharacter(enc, src[k..]);
    if ReadOne(enc, p).Some? { ReadIsLocal(enc, p, src[n..]); }
    ReadAllAppend(enc, src[..k], p);
  }

  /** The first half of a pair is the beginning of a character. */
  lemma HalfBegins(half: Bytes)
    requires half != [] && DecodeUtf8(half).Some? && HighSurrogate(DecodeUtf8(half).value.cp) && DecodeUtf8(half).value.len == |half|
    ensures Begins(Cesu8, half) && |half| == 3
  {
    var low: Bytes := [0xED, 0xB0, 0x80];
    var high := DecodeUtf8(half).value;
    assert DecodeUtf8(low) == Some(Read(0xDC00, 3));
    assert |half| == 3;
    Utf8IsLocal(half, half + low);
    assert (half + low)[3..] == low;
    hide DecodeUtf8;
    assert ReadCesu8(half + low).Some? && ReadCesu8(half + low).value.len == 6;
    assert Completes(Cesu8, half, low);
  }

  /** Text cut after the first half of a pair is a valid front and a beginning, too long a one to be withheld. */
  lemma DividedPair(front: Bytes, half: Bytes)
    requires ReadAll(Cesu8, front).Some?
    requires half != [] && DecodeUtf8(half).Some? && HighSurrogate(DecodeUtf8(half).value.cp) && DecodeUtf8(half).value.len == |half|
    ensures CutAt(Cesu8, front + half, |front|) && !Separable(Cesu8, |front + half| - |front|)
  {
    HalfBegins(half);
    hide ReadAll, Begins, DecodeUtf8;
    assert (front + half)[..|front|] == front && (front + half)[|front|..] == half;
  }

  /** So it is refused, though its second half is on the way: U+10000, for one, after its first three bytes. */
  method DecodeDividedPair(front: Bytes) returns (r: Option<(Text, nat)>)
    requires ReadAll(Cesu8, front).Some?
    ensures r == None
  {
    var half: Bytes := [0xED, 0xA0, 0x80];
    assert DecodeUtf8(half) == Some(Read(0xD800, 3));
    DividedPair(front, half);
    r := StreamDecode(Cesu8, front + half);
  }
}
