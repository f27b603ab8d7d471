/**
 The forms of the encodings, said as their standards say them, and that a text has
 one form only: what is decoded encodes to the bytes it was decoded from.
 */
module TextForm {
  import opened Wrappers
  import opened TextCode
  import opened TextEncode

  // ----- the bytes of a character

  /**
   Section 3 of RFC 3629: one byte below U+0080, and then two, three and four, the
   first saying how many; each byte after it holds six bits.
   */
  lemma Utf8Form(cp: nat)
    requires cp <= 0x10FFFF
    ensures
      var b := Utf8Bytes(cp);
      && |b| == (if cp < 0x80 then 1 else if cp < 0x800 then 2 else if cp < 0x1_0000 then 3 else 4)
      && (forall k :: 1 <= k < |b| ==> 0x80 <= b[k] < 0xC0)
      && match |b|
         case 1 => b[0] == cp
         case 2 => 0xC0 <= b[0] < 0xE0 && cp == 64 * (b[0] as int - 0xC0) + (b[1] as int - 0x80)
         case 3 => 0xE0 <= b[0] < 0xF0 && cp == 4096 * (b[0] as int - 0xE0) + 64 * (b[1] as int - 0x80) + (b[2] as int - 0x80)
         case _ => 0xF0 <= b[0] < 0xF8 && cp == 262144 * (b[0] as int - 0xF0) + 4096 * (b[1] as int - 0x80) + 64 * (b[2] as int - 0x80) + (b[3] as int - 0x80)
  {
    if cp >= 0x1_0000 {
      assert cp / 4096 == 64 * (cp / 262144) + cp / 4096 % 64;
    }
    assert cp / 64 == 64 * (cp / 4096) + cp / 64 % 64;
  }

  /** The number in some bytes, the first being the highest. */
  function Big(b: Bytes): nat {
    if b == [] then 0 else 256 * Big(b[..|b| - 1]) + b[|b| - 1]
  }

  function Backwards(b: Bytes): (r: Bytes)
    ensures |r| == |b| && forall k :: 0 <= k < |b| ==> r[k] == b[|b| - 1 - k]
  {
    seq(|b|, k requires 0 <= k < |b| => b[|b| - 1 - k])
  }

  lemma BigIs(b: Bytes)
    ensures |b| == 2 ==> Big(b) == 256 * b[0] as int + b[1] as int
    ensures |b| == 4 ==> Big(b) == 0x100_0000 * b[0] as int + 0x1_0000 * b[1] as int + 256 * b[2] as int + b[3] as int
  {
    if |b| == 2 {
      assert b[..1] == [b[0]] && Big([b[0]]) == b[0] by { assert [b[0]][..0] == []; }
    }
    if |b| == 4 {
      var c := b[..3];
      assert c[..2] == [b[0], b[1]] && c[2] == b[2];
      BigOfTwo(b[0], b[1]);
      assert Big(c) == 256 * Big(c[..2]) + b[2];
    }
  }

  lemma BigOfTwo(x: byte, y: byte)
    ensures Big([x, y]) == 256 * x as int + y as int
  {
    var b := [x, y];
    var c := b[..1];
    assert c[..0] == [] && Big(c[..0]) == 0 && c[0] == x;
    assert Big(c) == x as int;
  }

  /**
   Sections 2.1 and 3 of RFC 2781: a character of the basic plane is its number in
   two bytes, another is two numbers that hold the high and the low ten bits of what
   is left of it; and UTF-32 is its number in four.  The other order of bytes is
   each number backwards.
   */
  lemma UnitForms(cp: nat)
    requires Scalar(cp)
    ensures Big(QuadBytes(cp, false)) == cp && QuadBytes(cp, true) == Backwards(QuadBytes(cp, false))
    ensures cp < 0x1_0000 ==> Big(UnitBytes(cp, false)) == cp && UnitBytes(cp, true) == Backwards(UnitBytes(cp, false))
    ensures cp >= 0x1_0000 ==>
      && 0xD800 <= High(cp) < 0xDC00 && 0xDC00 <= Low(cp) < 0xE000
      && cp == 0x1_0000 + 1024 * (High(cp) - 0xD800) + (Low(cp) - 0xDC00)
  {
    BigIs(QuadBytes(cp, false));
    assert cp / 256 == 256 * (cp / 0x1_0000) + cp / 256 % 256;
    assert cp / 0x1_0000 == 256 * (cp / 0x100_0000) + cp / 0x1_0000 % 256;
    if cp < 0x1_0000 { BigIs(UnitBytes(cp, false)); }
  }

  // ----- one form only

  /** The encoding that writes what this one reads: `ucs-2` reads pairs, and does not write them. */
  function Writer(enc: Encoding): Encoding {
    if enc.Ucs2? then Utf16(enc.le) else enc
  }

  lemma Utf8IsForm(src: Bytes)
    requires src != [] && DecodeUtf8(src).Some?
    ensures var r := DecodeUtf8(src).value; Utf8Bytes(r.cp) == src[..r.len]
  {
    var r := DecodeUtf8(src).value;
    var n := r.len;
    assert src[..n] == seq(n, k requires 0 <= k < n => src[k]);
    if n == 3 { ThreeBack(src[0], src[1], src[2]); }
    if n == 4 { FourBack(src[0], src[1], src[2], src[3]); }
  }

  lemma ThreeBack(a: byte, b: byte, c: byte)
    requires 0xE0 <= a < 0xF0 && Continuation(b) && Continuation(c)
    ensures
      var cp := Six(Six(a - 0xE0, b), c);
      cp < 0x1_0000 && 0xE0 + cp / 4096 == a && 0x80 + cp / 64 % 64 == b && 0x80 + cp % 64 == c
  {
    var x, y, z := a - 0xE0, b - 0x80, c - 0x80;
    var cp := Six(Six(a - 0xE0, b), c);
    assert cp == 4096 * x + 64 * y + z;
    assert cp / 64 == 64 * x + y && cp % 64 == z;
  }

  lemma FourBack(a: byte, b: byte, c: byte, d: byte)
    requires 0xF0 <= a < 0xF5 && Continuation(b) && Continuation(c) && Continuation(d)
    ensures
      var cp := Six(Six(Six(a - 0xF0, b), c), d);
      0xF0 + cp / 262144 == a && 0x80 + cp / 4096 % 64 == b && 0x80 + cp / 64 % 64 == c && 0x80 + cp % 64 == d
  {
    var w, x, y, z := a - 0xF0, b - 0x80, c - 0x80, d - 0x80;
    var cp := Six(Six(Six(a - 0xF0, b), c), d);
    assert cp == 262144 * w + 4096 * x + 64 * y + z;
    assert cp / 64 == 4096 * w + 64 * x + y && cp % 64 == z;
    assert cp / 4096 == 64 * w + x;
  }

  lemma PairBack(high: nat, low: nat)
    requires HighSurrogate(high) && LowSurrogate(low)
    ensures High(Paired(high, low)) == high && Low(Paired(high, low)) == low
  {
  }

  lemma UnitBack(a: byte, b: byte, le: bool)
    ensures UnitBytes(Unit(a, b, le), le) == [a, b]
  {
  }

  lemma QuadBack(src: Bytes, le: bool)
    requires |src| >= 4 && Quad(src, le) <= 0x10FFFF
    ensures QuadBytes(Quad(src, le), le) == src[..4]
  {
    var s := if le then [src[3], src[2], src[1], src[0]] else [src[0], src[1], src[2], src[3]];
    var cp := Quad(src, le);
    assert cp == Eight(Eight(Eight(s[0], s[1]), s[2]), s[3]);
    assert cp / 256 == Eight(Eight(s[0], s[1]), s[2]) && cp % 256 == s[3];
    assert cp / 0x1_0000 == Eight(s[0], s[1]) && cp / 256 % 256 == s[2];
    assert cp / 0x100_0000 == s[0] && cp / 0x1_0000 % 256 == s[1];
    assert src[..4] == [src[0], src[1], src[2], src[3]];
  }

  /** A character is encoded as the bytes it was read from. */
  lemma ReadIsEncoded(enc: Encoding, src: Bytes)
    requires src != [] && !enc.ByTable? && ReadOne(enc, src).Some?
    ensures var r := ReadOne(enc, src).value; Encoded(Writer(enc), r.cp) == Some(src[..r.len])
  {
    hide DecodeUtf8, Utf8Bytes, UnitBytes, QuadBytes;
    match enc
    case Utf8 => Utf8IsForm(src);
    case Cesu8 => Cesu8IsForm(src);
    case Utf16(le) => Utf16IsForm(src, le);
    case Ucs2(le) => Utf16IsForm(src, le);
    case Utf32(le) => QuadBack(src, le);
    case _ =>
  }

  lemma Utf16IsForm(src: Bytes, le: bool)
    requires src != [] && ReadUtf16(src, le).Some?
    ensures var r := ReadUtf16(src, le).value; Encoded(Utf16(le), r.cp) == Some(src[..r.len])
  {
    hide UnitBytes;
    var r := ReadUtf16(src, le).value;
    UnitBack(src[0], src[1], le);
    if r.len == 4 {
      UnitBack(src[2], src[3], le);
      PairBack(Unit(src[0], src[1], le), Unit(src[2], src[3], le));
      assert src[..4] == [src[0], src[1]] + [src[2], src[3]];
    } else {
      assert src[..2] == [src[0], src[1]];
    }
  }

  lemma Cesu8IsForm(src: Bytes)
    requires src != [] && ReadCesu8(src).Some?
    ensures var r := ReadCesu8(src).value; Encoded(Cesu8, r.cp) == Some(src[..r.len])
  {
    hide DecodeUtf8, Three;
    var d := DecodeUtf8(src).value;
    Utf8IsForm(src);
    if HighSurrogate(d.cp) {
      var rest := src[d.len..];
      var low := DecodeUtf8(rest).value;
      Utf8IsForm(rest);
      PairBack(d.cp, low.cp);
      assert src[..d.len + low.len] == src[..d.len] + rest[..low.len];
    }
  }

  /** Text decodes from one string of bytes only: the one it is encoded as. */
  lemma {:induction false} EncodeOfDecode(enc: Encoding, src: Bytes)
    requires !enc.ByTable? && ReadAll(enc, src).Some?
    ensures AllScalar(ReadAll(enc, src).value) && EncodedAll(Writer(enc), ReadAll(enc, src).value) == Some(src)
    decreases |src|
  {
    hide ReadOne, Encoded;
    if src != [] {
      var one := ReadOne(enc, src).value;
      var rest := src[one.len..];
      EncodeOfDecode(enc, rest);
      ReadIsEncoded(enc, src);
      EncodedFront(Writer(enc), one.cp, ReadAll(enc, rest).value);
      assert src == src[..one.len] + rest;
    }
  }

  lemma {:induction false} EncodedFront(enc: Encoding, cp: nat, text: Text)
    requires Scalar(cp) && AllScalar(text) && Encoded(enc, cp).Some? && EncodedAll(enc, text).Some?
    ensures AllScalar([cp] + text) && EncodedAll(enc, [cp] + text) == Some(Encoded(enc, cp).value + EncodedAll(enc, text).value)
    decreases |text|
  {
    hide Encoded;
    var all := [cp] + text;
    assert AllScalar(all);
    if text == [] {
      assert all[..0] == [] && all[0] == cp;
      assert EncodedAll(enc, all[..0]) == Some([]);
      var a := Encoded(enc, cp).value;
      assert [] + a == a && a + [] == a;
    } else {
      var front, last := text[..|text| - 1], text[|text| - 1];
      assert all[..|all| - 1] == [cp] + front && all[|all| - 1] == last;
      assert EncodedAll(enc, text) == Some(EncodedAll(enc, front).value + Encoded(enc, last).value);
      EncodedFront(enc, cp, front);
      var a, b, c := Encoded(enc, cp).value, EncodedAll(enc, front).value, Encoded(enc, last).value;
      assert (a + b) + c == a + (b + c);
    }
  }
}
