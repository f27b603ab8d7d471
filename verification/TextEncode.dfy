/**
 The encoders, the inversion of a table, and the round trip: decoding what was
 encoded gives the text back.
 */
module TextEncode {
  import opened Wrappers
  import opened TextCode

  predicate AllScalar(text: Text) {
    forall k | 0 <= k < |text| :: Scalar(text[k])
  }

  // ----- the bytes of a character

  function Three(cp: nat): Bytes
    requires cp < 0x1_0000
  {
    [0xE0 + cp / 4096, 0x80 + cp / 64 % 64, 0x80 + cp % 64]
  }

  /** Section 3 of RFC 3629. */
  function Utf8Bytes(cp: nat): Bytes
    requires cp <= 0x10FFFF
  {
    if cp < 0x80 then [cp]
    else if cp < 0x800 then [0xC0 + cp / 64, 0x80 + cp % 64]
    else if cp < 0x1_0000 then Three(cp)
    else [0xF0 + cp / 262144, 0x80 + cp / 4096 % 64, 0x80 + cp / 64 % 64, 0x80 + cp % 64]
  }

  function UnitBytes(unit: nat, le: bool): Bytes
    requires unit < 0x1_0000
  {
    if le then [unit % 256, unit / 256] else [unit / 256, unit % 256]
  }

  function High(cp: nat): nat
    requires 0x1_0000 <= cp <= 0x10FFFF
  {
    0xD800 + (cp - 0x1_0000) / 1024
  }

  function Low(cp: nat): nat
    requires 0x1_0000 <= cp <= 0x10FFFF
  {
    0xDC00 + (cp - 0x1_0000) % 1024
  }

  function QuadBytes(cp: nat, le: bool): Bytes
    requires cp <= 0x10FFFF
  {
    var a, b, c, d := cp / 0x100_0000, cp / 0x1_0000 % 256, cp / 256 % 256, cp % 256;
    if le then [d, c, b, a] else [a, b, c, d]
  }

  function WordBytes(table: Table, word: nat): Bytes
    requires word < 0x1_0000
  {
    if table.prefix[word / 256] then [word / 256, word % 256] else [word % 256]
  }

  /** The bytes of a character, unless the encoding has none for it. */
  function Encoded(enc: Encoding, cp: nat): Option<Bytes>
    requires Scalar(cp)
  {
    match enc
    case Utf8 => Some(Utf8Bytes(cp))
    case Cesu8 => Some(if cp > 0xFFFF then Three(High(cp)) + Three(Low(cp)) else Utf8Bytes(cp))
    case Utf16(le) => Some(if cp > 0xFFFF then UnitBytes(High(cp), le) + UnitBytes(Low(cp), le) else UnitBytes(cp, le))
    case Ucs2(le) => if cp > 0xFFFF then None else Some(UnitBytes(cp, le))
    case Utf32(le) => Some(QuadBytes(cp, le))
    case ByTable(table) =>
      var word := if cp > 0xFFFF then 0 else Entry(table.fromUnicode, cp / 256, cp % 256);
      if word == 0 && cp != 0 then None else Some(WordBytes(table, word))
  }

  /** The bytes of a text, unless one of its characters has none. */
  function EncodedAll(enc: Encoding, text: Text): Option<Bytes>
    requires AllScalar(text)
  {
    if text == [] then Some([])
    else
      var front, last := EncodedAll(enc, text[..|text| - 1]), Encoded(enc, text[|text| - 1]);
      if front.None? || last.None? then None else Some(front.value + last.value)
  }

  /** A text with a part that cannot be encoded cannot. */
  lemma {:induction false} CannotEncode(enc: Encoding, text: Text, k: nat)
    requires AllScalar(text) && k <= |text| && EncodedAll(enc, text[..k]) == None
    ensures EncodedAll(enc, text) == None
    decreases |text|
  {
    hide Encoded;
    if k == |text| {
      assert text[..k] == text;
    } else {
      assert text[..|text| - 1][..k] == text[..k];
      CannotEncode(enc, text[..|text| - 1], k);
    }
  }

  // ----- encoding, as the program does it

  /** The bytes of the text, or where a strict conversion stops. */
  ghost predicate Produced(enc: Encoding, text: Text, out: Bytes, stop: Option<nat>)
    requires AllScalar(text)
  {
    if stop.None? then EncodedAll(enc, text) == Some(out)
    else stop.value < |text| && EncodedAll(enc, text) == None && EncodedAll(enc, text[..stop.value]) == Some(out)
  }

  /** One more character. */
  lemma EncodeStep(enc: Encoding, text: Text, k: nat, out: Bytes)
    requires AllScalar(text) && k < |text| && EncodedAll(enc, text[..k]) == Some(out)
    ensures
      var one := Encoded(enc, text[k]);
      if one.None? then EncodedAll(enc, text) == None else EncodedAll(enc, text[..k + 1]) == Some(out + one.value)
  {
    hide Encoded;
    assert text[..k + 1][..k] == text[..k];
    if Encoded(enc, text[k]).None? { CannotEncode(enc, text, k + 1); }
  }

  method TableFromUtf(table: Table, text: Text) returns (out: Bytes, stop: Option<nat>)
    requires AllScalar(text)
    ensures Produced(ByTable(table), text, out, stop)
  {
    hide EncodedAll;
    out, stop := [], None;
    NothingEncoded(ByTable(table));
    for at := 0 to |text|
      invariant EncodedAll(ByTable(table), text[..at]) == Some(out)
    {
      EncodeStep(ByTable(table), text, at, out);
      var cp := text[at];
      var word := if cp > 0xFFFF then 0 else Entry(table.fromUnicode, cp / 256, cp % 256);
      if word == 0 && cp != 0 { return out, Some(at); }
      if table.prefix[word / 256] {
        out := out + [word / 256, word % 256];
      } else {
        out := out + [word % 256];
      }
    }
    assert text[..|text|] == text;
  }

  method Cesu8FromUtf(text: Text) returns (out: Bytes)
    requires AllScalar(text)
    ensures EncodedAll(Cesu8, text) == Some(out)
  {
    hide EncodedAll, Three, Utf8Bytes;
    out := [];
    NothingEncoded(Cesu8);
    for at := 0 to |text|
      invariant EncodedAll(Cesu8, text[..at]) == Some(out)
    {
      EncodeStep(Cesu8, text, at, out);
      var cp := text[at];
      ghost var before := out;
      if cp > 0xFFFF {
        out := out + Three(High(cp));
        out := out + Three(Low(cp));
        assert out == before + (Three(High(cp)) + Three(Low(cp)));
      } else {
        out := out + Utf8Bytes(cp);
      }
    }
    assert text[..|text|] == text;
  }

  method Utf16FromUtf(text: Text, le: bool) returns (out: Bytes)
    requires AllScalar(text)
    ensures EncodedAll(Utf16(le), text) == Some(out)
  {
    hide EncodedAll, UnitBytes;
    out := [];
    NothingEncoded(Utf16(le));
    for at := 0 to |text|
      invariant EncodedAll(Utf16(le), text[..at]) == Some(out)
    {
      EncodeStep(Utf16(le), text, at, out);
      var cp := text[at];
      ghost var before := out;
      if cp > 0xFFFF {
        out := out + UnitBytes(High(cp), le);
        out := out + UnitBytes(Low(cp), le);
        assert out == before + (UnitBytes(High(cp), le) + UnitBytes(Low(cp), le));
      } else {
        out := out + UnitBytes(cp, le);
      }
    }
    assert text[..|text|] == text;
  }

  /** No surrogate pairs: a character past the basic plane stops the conversion. */
  method Ucs2FromUtf(text: Text, le: bool) returns (out: Bytes, stop: Option<nat>)
    requires AllScalar(text)
    ensures Produced(Ucs2(le), text, out, stop)
  {
    hide EncodedAll, UnitBytes;
    out, stop := [], None;
    NothingEncoded(Ucs2(le));
    for at := 0 to |text|
      invariant EncodedAll(Ucs2(le), text[..at]) == Some(out)
    {
      EncodeStep(Ucs2(le), text, at, out);
      if text[at] > 0xFFFF { return out, Some(at); }
      out := out + UnitBytes(text[at], le);
    }
    assert text[..|text|] == text;
  }

  method Utf32FromUtf(text: Text, le: bool) returns (out: Bytes)
    requires AllScalar(text)
    ensures EncodedAll(Utf32(le), text) == Some(out)
  {
    hide EncodedAll, QuadBytes;
    out := [];
    NothingEncoded(Utf32(le));
    for at := 0 to |text|
      invariant EncodedAll(Utf32(le), text[..at]) == Some(out)
    {
      EncodeStep(Utf32(le), text, at, out);
      out := out + QuadBytes(text[at], le);
    }
    assert text[..|text|] == text;
  }

  /** A string is its UTF-8. */
  method Utf8FromUtf(text: Text) returns (out: Bytes)
    requires AllScalar(text)
    ensures EncodedAll(Utf8, text) == Some(out)
  {
    hide EncodedAll, Utf8Bytes;
    out := [];
    NothingEncoded(Utf8);
    for at := 0 to |text|
      invariant EncodedAll(Utf8, text[..at]) == Some(out)
    {
      EncodeStep(Utf8, text, at, out);
      out := out + Utf8Bytes(text[at]);
    }
    assert text[..|text|] == text;
  }

  lemma NothingEncoded(enc: Encoding)
    ensures EncodedAll(enc, []) == Some([])
  {
  }

  /** Encode a channel's text. */
  method StreamEncode(enc: Encoding, text: Text) returns (r: Option<Bytes>)
    requires AllScalar(text)
    ensures r == EncodedAll(enc, text)
  {
    hide EncodedAll;
    var out, stop: Option<nat> := [], None;
    match enc {
      case Utf8 => out := Utf8FromUtf(text);
      case Cesu8 => out := Cesu8FromUtf(text);
      case Utf16(le) => out := Utf16FromUtf(text, le);
      case Ucs2(le) => out, stop := Ucs2FromUtf(text, le);
      case Utf32(le) => out := Utf32FromUtf(text, le);
      case ByTable(table) => out, stop := TableFromUtf(table, text);
    }
    r := if stop.Some? then None else Some(out);
  }

  // ----- tables

  /** `from` has, for every character of the table, the last place it is at. */
  ghost predicate Inverts(from: Pages, to: Pages) {
    && (forall hi: byte, lo: byte :: 0 < Entry(to, hi, lo) ==> hi * 256 + lo <= Found(from, Entry(to, hi, lo)))
    && (forall ch: nat :: ch < 0x1_0000 && Found(from, ch) != 0 ==> ch != 0 && At(to, Found(from, ch)) == ch)
  }

  function Found(from: Pages, ch: nat): (w: nat)
    requires ch < 0x1_0000
    ensures w < 0x1_0000
  {
    Entry(from, ch / 256, ch % 256)
  }

  function At(to: Pages, word: nat): nat
    requires word < 0x1_0000
  {
    Entry(to, word / 256, word % 256)
  }

  function NoEntries(): Page {
    seq(256, _ => 0)
  }

  function PageOf(pages: Pages, hi: byte): Page {
    if pages[hi].Some? then pages[hi].value else NoEntries()
  }

  function SetFound(from: Pages, ch: nat, word: nat): Pages
    requires ch < 0x1_0000 && word < 0x1_0000
  {
    from[ch / 256 := Some(PageOf(from, ch / 256)[ch % 256 := word])]
  }

  lemma FoundAfter(from: Pages, ch: nat, word: nat, other: nat)
    requires ch < 0x1_0000 && word < 0x1_0000 && other < 0x1_0000
    ensures Found(SetFound(from, ch, word), other) == if other == ch then word else Found(from, other)
  {
    assert other == other / 256 * 256 + other % 256 && ch == ch / 256 * 256 + ch % 256;
  }

  /** Every place below `limit` has been entered. */
  ghost predicate Entered(from: Pages, to: Pages, limit: nat) {
    && (forall w: nat :: w < limit && w < 0x1_0000 && At(to, w) != 0 ==> w <= Found(from, At(to, w)))
    && (forall ch: nat :: ch < 0x1_0000 && Found(from, ch) != 0 ==> ch != 0 && Found(from, ch) < limit && At(to, Found(from, ch)) == ch)
  }

  lemma EnterOne(from: Pages, to: Pages, w: nat)
    requires Entered(from, to, w) && w < 0x1_0000
    ensures Entered(if At(to, w) == 0 then from else SetFound(from, At(to, w), w), to, w + 1)
  {
    var ch := At(to, w);
    if ch != 0 {
      var after := SetFound(from, ch, w);
      forall v: nat | v < w + 1 && At(to, v) != 0 ensures v <= Found(after, At(to, v)) {
        FoundAfter(from, ch, w, At(to, v));
      }
      forall c: nat | c < 0x1_0000 && Found(after, c) != 0 ensures c != 0 && Found(after, c) < w + 1 && At(to, Found(after, c)) == c {
        FoundAfter(from, ch, w, c);
      }
    }
  }

  /** Build the inverse of a table's pages, and mark the bytes that begin a pair. */
  method BuildTable(to: Pages, double: bool) returns (table: Table)
    ensures table.toUnicode == to && Inverts(table.fromUnicode, to)
    ensures forall hi: byte :: table.prefix[hi] <==> double || (hi >= 1 && to[hi].Some?)
    ensures Entry(to, 0, 0) == 0 && (double || forall lo: byte :: Entry(to, 0, lo) != 0 ==> lo == 0 || to[lo].None?) ==> WellFormed(table)
  {
    var prefix: Flags := seq(256, hi requires 0 <= hi < 256 => double || (hi >= 1 && to[hi].Some?));
    var from: Pages := seq(256, _ => None);
    for hi := 0 to 256
      invariant Entered(from, to, hi * 256)
    {
      if to[hi].None? {
        NothingThere(from, to, hi);
        continue;
      }
      for lo := 0 to 256
        invariant Entered(from, to, hi * 256 + lo)
      {
        ghost var w := hi * 256 + lo;
        assert w / 256 == hi && w % 256 == lo;
        EnterOne(from, to, w);
        var ch := to[hi].value[lo];
        if ch != 0 { from := SetFound(from, ch, hi * 256 + lo); }
      }
    }
    forall hi: byte, lo: byte | 0 < Entry(to, hi, lo) ensures hi * 256 + lo <= Found(from, Entry(to, hi, lo)) {
      var w := hi * 256 + lo;
      assert w / 256 == hi && w % 256 == lo;
      assert At(to, w) == Entry(to, hi, lo);
    }
    table := Table(to, from, prefix);
  }

  lemma NothingThere(from: Pages, to: Pages, hi: byte)
    requires Entered(from, to, hi * 256) && to[hi].None?
    ensures Entered(from, to, hi * 256 + 256)
  {
    forall w: nat | hi * 256 <= w < hi * 256 + 256 ensures At(to, w) == 0 {
      assert w / 256 == hi;
    }
  }

  /** What a table needs for its inverse to undo it. */
  ghost predicate WellFormed(table: Table) {
    && Inverts(table.fromUnicode, table.toUnicode)
    && (table.prefix[0] || forall hi: byte :: table.prefix[hi] <==> hi >= 1 && table.toUnicode[hi].Some?)
    && (table.prefix[0] ==> forall hi: byte :: table.prefix[hi])
    && Entry(table.toUnicode, 0, 0) == 0
    && (forall lo: byte :: Entry(table.toUnicode, 0, lo) != 0 && !table.prefix[0] ==> !table.prefix[lo])
  }

  // ----- the round trip

  lemma Utf8ReadsBack(cp: nat)
    requires cp <= 0x10FFFF
    ensures DecodeUtf8(Utf8Bytes(cp)) == Some(Read(cp, |Utf8Bytes(cp)|))
  {
    assert cp == cp / 64 * 64 + cp % 64;
    assert cp / 64 == cp / 64 / 64 * 64 + cp / 64 % 64 && cp / 64 / 64 == cp / 4096;
    assert cp / 4096 == cp / 4096 / 64 * 64 + cp / 4096 % 64 && cp / 4096 / 64 == cp / 262144;
  }

  lemma UnitReadsBack(unit: nat, le: bool)
    requires unit < 0x1_0000
    ensures var b := UnitBytes(unit, le); Unit(b[0], b[1], le) == unit
  {
  }

  lemma QuadReadsBack(cp: nat, le: bool)
    requires cp <= 0x10FFFF
    ensures Quad(QuadBytes(cp, le), le) == cp
  {
    assert cp == cp / 256 * 256 + cp % 256;
    assert cp / 256 == cp / 256 / 256 * 256 + cp / 256 % 256 && cp / 256 / 256 == cp / 0x1_0000;
    assert cp / 0x1_0000 == cp / 0x1_0000 / 256 * 256 + cp / 0x1_0000 % 256 && cp / 0x1_0000 / 256 == cp / 0x100_0000;
  }

  lemma PairReadsBack(cp: nat)
    requires 0x1_0000 <= cp <= 0x10FFFF
    ensures HighSurrogate(High(cp)) && LowSurrogate(Low(cp)) && Paired(High(cp), Low(cp)) == cp
  {
  }

  lemma WordReadsBack(table: Table, cp: nat)
    requires WellFormed(table) && Scalar(cp) && Encoded(ByTable(table), cp).Some?
    ensures var b := Encoded(ByTable(table), cp).value; b != [] && ReadTable(table, b) == Some(Read(cp, |b|))
  {
    var word := if cp > 0xFFFF then 0 else Found(table.fromUnicode, cp);
    if word != 0 {
      assert At(table.toUnicode, word) == cp;
    }
  }

  /** A character that was encoded reads back. */
  lemma CharacterReadsBack(enc: Encoding, cp: nat)
    requires Scalar(cp) && Encoded(enc, cp).Some? && (enc.ByTable? ==> WellFormed(enc.table))
    ensures var b := Encoded(enc, cp).value; b != [] && ReadOne(enc, b) == Some(Read(cp, |b|))
  {
    match enc
    case Utf8 => Utf8ReadsBack(cp);
    case Cesu8 =>
      if cp > 0xFFFF {
        var b := Three(High(cp)) + Three(Low(cp));
        PairReadsBack(cp);
        Utf8ReadsBack(High(cp));
        Utf8ReadsBack(Low(cp));
        assert b[3..] == Three(Low(cp)) && b[..3] == Three(High(cp));
        ReadHalf(Three(High(cp)), Three(Low(cp)));
      } else {
        Utf8ReadsBack(cp);
      }
    case Utf16(le) => UnitsReadBack(cp, le);
    case Ucs2(le) => UnitsReadBack(cp, le);
    case Utf32(le) => QuadReadsBack(cp, le);
    case ByTable(table) => WordReadsBack(table, cp);
  }

  lemma ReadHalf(a: Bytes, b: Bytes)
    requires a != [] && DecodeUtf8(a).Some?
    ensures DecodeUtf8(a + b) == DecodeUtf8(a)
  {
    Utf8IsLocal(a, a + b);
  }

  lemma UnitsReadBack(cp: nat, le: bool)
    requires Scalar(cp)
    ensures var b := Encoded(Utf16(le), cp).value; ReadUtf16(b, le) == Some(Read(cp, |b|))
  {
    if cp > 0xFFFF {
      PairReadsBack(cp);
      UnitReadsBack(High(cp), le);
      UnitReadsBack(Low(cp), le);
    } else {
      UnitReadsBack(cp, le);
    }
  }

  /** Decoding what was encoded gives the text back. */
  lemma {:induction false} DecodeOfEncode(enc: Encoding, text: Text)
    requires AllScalar(text) && EncodedAll(enc, text).Some? && (enc.ByTable? ==> WellFormed(enc.table))
    ensures ReadAll(enc, EncodedAll(enc, text).value) == Some(text)
    decreases |text|
  {
    hide Encoded, ReadOne, WellFormed;
    if text != [] {
      var front, last := text[..|text| - 1], text[|text| - 1];
      var b := Encoded(enc, last).value;
      DecodeOfEncode(enc, front);
      CharacterReadsBack(enc, last);
      assert b[|b|..] == [];
      assert ReadAll(enc, b[|b|..]) == Some([]);
      assert ReadAll(enc, b) == Some([last] + []);
      ReadAllAppend(enc, EncodedAll(enc, front).value, b);
      assert EncodedAll(enc, text).value == EncodedAll(enc, front).value + b;
      assert front + ([last] + []) == text;
    }
  }

  /** Every character has an encoding, but in `ucs-2` those past the basic plane and in a table those it lacks. */
  lemma {:induction false} EncodesUnless(enc: Encoding, text: Text)
    requires AllScalar(text) && !enc.ByTable?
    ensures EncodedAll(enc, text).Some? <==> enc.Ucs2? ==> forall k | 0 <= k < |text| :: text[k] <= 0xFFFF
    decreases |text|
  {
    hide Utf8Bytes, Three, QuadBytes, UnitBytes;
    if text != [] {
      EncodesUnless(enc, text[..|text| - 1]);
      assert forall k :: 0 <= k < |text| - 1 ==> text[..|text| - 1][k] == text[k];
    }
  }
}
