/**
 Character encodings: how one character is read from the front of some bytes,
 and what a whole byte string stands for.

 `ReadAll` is the meaning of a byte string under the strict profile, which is the
 one channels use; the loops that decode a buffer in one pass, carrying a
 surrogate from one unit to the next, are proved against it.
 */
module TextCode {
  import opened Wrappers

  type byte = b: nat | b < 256

  type Bytes = seq<byte>
  /** Code points. */
  type Text = seq<nat>

  const REPLACE_CHAR: nat := 0xFFFD

  predicate Surrogate(cp: nat) {
    0xD800 <= cp < 0xE000
  }

  predicate HighSurrogate(cp: nat) {
    0xD800 <= cp < 0xDC00
  }

  predicate LowSurrogate(cp: nat) {
    0xDC00 <= cp < 0xE000
  }

  /** A character a string can hold. */
  predicate Scalar(cp: nat) {
    cp <= 0x10FFFF && !Surrogate(cp)
  }

  // ----- tables

  /** 256 entries, zero where there is none. */
  type Page = p: seq<nat> | |p| == 256 && forall k :: 0 <= k < 256 ==> p[k] < 0x1_0000
    witness seq(256, _ => 0)

  type Pages = p: seq<Option<Page>> | |p| == 256 witness seq(256, _ => None)

  type Flags = f: seq<bool> | |f| == 256 witness seq(256, _ => false)

  datatype Table = Table(toUnicode: Pages, fromUnicode: Pages, prefix: Flags)

  function Entry(pages: Pages, hi: byte, lo: byte): (e: nat)
    ensures e < 0x1_0000
  {
    if pages[hi].None? then 0 else pages[hi].value[lo]
  }

  datatype Encoding =
    | Utf8
    | Cesu8
    | Utf16(le: bool)
    | Ucs2(le: bool)
    | Utf32(le: bool)
    | ByTable(table: Table)

  // ----- reading one character

  /** A character, and the number of bytes it took. */
  datatype Read = Read(cp: nat, len: nat)

  predicate Continuation(b: byte) {
    0x80 <= b < 0xC0
  }

  /** Six more bits of a code point. */
  function Six(cp: nat, b: nat): nat
    requires 0x80 <= b
  {
    cp * 64 + (b - 0x80)
  }

  /** One code point of UTF-8: a surrogate is legal, an overlong or out-of-range form is not. */
  function DecodeUtf8(src: Bytes): (r: Option<Read>)
    requires src != []
    ensures r.Some? ==> 1 <= r.value.len <= 4 && r.value.len <= |src| && r.value.cp <= 0x10FFFF
  {
    var lead := src[0];
    if lead < 0x80 then Some(Read(lead, 1))
    else if 0xC2 <= lead < 0xE0 then
      if |src| < 2 || !Continuation(src[1]) then None
      else Some(Read(Six(lead - 0xC0, src[1]), 2))
    else if 0xE0 <= lead < 0xF0 then
      if |src| < 3 || !Continuation(src[1]) || !Continuation(src[2]) then None
      else
        var cp := Six(Six(lead - 0xE0, src[1]), src[2]);
        if cp < 0x800 then None else Some(Read(cp, 3))
    else if 0xF0 <= lead < 0xF5 then
      if |src| < 4 || !Continuation(src[1]) || !Continuation(src[2]) || !Continuation(src[3]) then None
      else
        var cp := Six(Six(Six(lead - 0xF0, src[1]), src[2]), src[3]);
        if cp < 0x1_0000 || cp > 0x10FFFF then None else Some(Read(cp, 4))
    else None
  }

  function Eight(high: nat, low: nat): nat {
    high * 256 + low
  }

  /** The code unit in two bytes. */
  function Unit(a: byte, b: byte, le: bool): (u: nat)
    ensures u < 0x1_0000
  {
    if le then Eight(b, a) else Eight(a, b)
  }

  function Quad(src: Bytes, le: bool): nat
    requires |src| >= 4
  {
    if le then Eight(Eight(Eight(src[3], src[2]), src[1]), src[0])
    else Eight(Eight(Eight(src[0], src[1]), src[2]), src[3])
  }

  /** The character a surrogate pair stands for. */
  function Paired(high: nat, low: nat): (cp: nat)
    requires HighSurrogate(high) && LowSurrogate(low)
    ensures 0x1_0000 <= cp <= 0x10FFFF
  {
    0x1_0000 + (high - 0xD800) * 1024 + (low - 0xDC00)
  }

  /** The character at the front of some bytes, if they begin with a whole valid one. */
  function ReadOne(enc: Encoding, src: Bytes): (r: Option<Read>)
    requires src != []
    ensures r.Some? ==> 1 <= r.value.len <= |src| && Scalar(r.value.cp)
  {
    match enc
    case Utf8 =>
      var d := DecodeUtf8(src);
      if d.None? || Surrogate(d.value.cp) then None else d
    case Cesu8 => ReadCesu8(src)
    case Utf16(le) => ReadUtf16(src, le)
    case Ucs2(le) => ReadUtf16(src, le)
    case Utf32(le) =>
      if |src| < 4 || !Scalar(Quad(src, le)) then None else Some(Read(Quad(src, le), 4))
    case ByTable(table) => ReadTable(table, src)
  }

  function ReadUtf16(src: Bytes, le: bool): (r: Option<Read>)
    ensures r.Some? ==> 1 <= r.value.len <= |src| && Scalar(r.value.cp)
  {
    if |src| < 2 then None
    else
      var unit := Unit(src[0], src[1], le);
      if !Surrogate(unit) then Some(Read(unit, 2))
      else if HighSurrogate(unit) && |src| >= 4 && LowSurrogate(Unit(src[2], src[3], le)) then
        Some(Read(Paired(unit, Unit(src[2], src[3], le)), 4))
      else None
  }

  /** An astral character is the two three-byte sequences of its surrogates. */
  function ReadCesu8(src: Bytes): (r: Option<Read>)
    requires src != []
    ensures r.Some? ==> 1 <= r.value.len <= |src| && Scalar(r.value.cp)
  {
    var d := DecodeUtf8(src);
    if d.None? || LowSurrogate(d.value.cp) || d.value.cp > 0xFFFF then None
    else if HighSurrogate(d.value.cp) then
      if |src| == d.value.len then None
      else
        var low := DecodeUtf8(src[d.value.len..]);
        if low.None? || !LowSurrogate(low.value.cp) then None
        else Some(Read(Paired(d.value.cp, low.value.cp), d.value.len + low.value.len))
    else d
  }

  /** What a table entry is as text: no table maps to a surrogate. */
  function AsChar(ch: nat): (cp: nat)
    requires ch < 0x1_0000
    ensures Scalar(cp)
  {
    if Surrogate(ch) then REPLACE_CHAR else ch
  }

  function ReadTable(table: Table, src: Bytes): (r: Option<Read>)
    requires src != []
    ensures r.Some? ==> 1 <= r.value.len <= |src| && Scalar(r.value.cp)
  {
    var b := src[0];
    if table.prefix[b] then
      if |src| < 2 then None
      else
        var ch := Entry(table.toUnicode, b, src[1]);
        if ch == 0 && b != 0 then None else Some(Read(AsChar(ch), 2))
    else
      var ch := Entry(table.toUnicode, 0, b);
      if ch == 0 && b != 0 then None else Some(Read(AsChar(ch), 1))
  }

  // ----- reading everything

  /** The text some bytes stand for, if they are valid from end to end. */
  function ReadAll(enc: Encoding, src: Bytes): (r: Option<Text>)
    decreases |src|
  {
    if src == [] then Some([])
    else
      var one := ReadOne(enc, src);
      if one.None? then None
      else
        var rest := ReadAll(enc, src[one.value.len..]);
        if rest.None? then None else Some([one.value.cp] + rest.value)
  }

  /** The bytes are the beginning of a character and not the whole of it. */
  ghost predicate Begins(enc: Encoding, p: Bytes) {
    p != [] && exists ext: Bytes :: Completes(enc, p, ext)
  }

  ghost predicate Completes(enc: Encoding, p: Bytes, ext: Bytes)
    requires p != []
  {
    var one := ReadOne(enc, p + ext);
    one.Some? && one.value.len > |p|
  }

  /** `b` begins with the first `len` bytes of `a`. */
  predicate Same(a: Bytes, b: Bytes, len: nat) {
    len <= |a| && len <= |b| && forall k :: 0 <= k < len ==> a[k] == b[k]
  }

  lemma Utf8IsLocal(a: Bytes, b: Bytes)
    requires a != [] && DecodeUtf8(a).Some? && Same(a, b, DecodeUtf8(a).value.len)
    ensures DecodeUtf8(b) == DecodeUtf8(a)
  {
  }

  lemma Cesu8IsLocal(a: Bytes, b: Bytes)
    requires a != [] && ReadCesu8(a).Some? && Same(a, b, ReadCesu8(a).value.len)
    ensures ReadCesu8(b) == ReadCesu8(a)
  {
    hide DecodeUtf8;
    var d := DecodeUtf8(a).value;
    Utf8IsLocal(a, b);
    if HighSurrogate(d.cp) {
      var low := DecodeUtf8(a[d.len..]).value;
      assert forall k :: 0 <= k < low.len ==> a[d.len..][k] == a[d.len + k] && b[d.len..][k] == b[d.len + k];
      Utf8IsLocal(a[d.len..], b[d.len..]);
    }
  }

  lemma ReadsTheSame(enc: Encoding, a: Bytes, b: Bytes)
    requires a != [] && ReadOne(enc, a).Some? && Same(a, b, ReadOne(enc, a).value.len)
    ensures ReadOne(enc, b) == ReadOne(enc, a)
  {
    hide DecodeUtf8;
    match enc
    case Utf8 => Utf8IsLocal(a, b);
    case Cesu8 => Cesu8IsLocal(a, b);
    case _ =>
  }

  /** How a character is read does not depend on the bytes after it. */
  lemma ReadIsLocal(enc: Encoding, src: Bytes, ext: Bytes)
    requires src != [] && ReadOne(enc, src).Some?
    ensures
      var one := ReadOne(enc, src).value;
      ReadOne(enc, src + ext) == Some(one) && ReadOne(enc, src[..one.len]) == Some(one)
  {
    ReadsTheSame(enc, src, src + ext);
    ReadsTheSame(enc, src, src[..ReadOne(enc, src).value.len]);
  }

  /** The beginning of a character cannot be read as one. */
  lemma BeginningIsNoCharacter(enc: Encoding, p: Bytes)
    requires Begins(enc, p)
    ensures ReadOne(enc, p).None?
  {
    var ext :| Completes(enc, p, ext);
    if ReadOne(enc, p).Some? { ReadIsLocal(enc, p, ext); }
  }

  lemma {:induction false} ReadAllAppend(enc: Encoding, a: Bytes, b: Bytes)
    requires ReadAll(enc, a).Some?
    ensures ReadAll(enc, a + b) ==
      if ReadAll(enc, b).None? then None else Some(ReadAll(enc, a).value + ReadAll(enc, b).value)
    decreases |a|
  {
    hide ReadOne;
    if a == [] {
      assert a + b == b;
      if ReadAll(enc, b).Some? { assert [] + ReadAll(enc, b).value == ReadAll(enc, b).value; }
    } else {
      var one := ReadOne(enc, a).value;
      ReadIsLocal(enc, a, b);
      assert (a + b)[one.len..] == a[one.len..] + b;
      ReadAllAppend(enc, a[one.len..], b);
      if ReadAll(enc, b).Some? {
        var x, y := ReadAll(enc, a[one.len..]).value, ReadAll(enc, b).value;
        assert [one.cp] + (x + y) == ([one.cp] + x) + y;
      }
    }
  }

  /** A character in front of some bytes. */
  lemma ReadAllFront(enc: Encoding, src: Bytes, k: nat)
    requires src != [] && ReadOne(enc, src).Some? && ReadOne(enc, src).value.len <= k <= |src|
    ensures
      var one := ReadOne(enc, src).value;
      ReadAll(enc, src[..k]) ==
        if ReadAll(enc, src[one.len..k]).None? then None else Some([one.cp] + ReadAll(enc, src[one.len..k]).value)
  {
    var one := ReadOne(enc, src).value;
    assert src == src[..k] + src[k..];
    ReadIsLocal(enc, src, []);
    ReadIsLocal(enc, src[..one.len], src[one.len..k]);
    assert src[..one.len] + src[one.len..k] == src[..k];
    assert src[..k][one.len..] == src[one.len..k];
  }

  lemma TooShort(enc: Encoding, src: Bytes, n: nat)
    requires src != [] && ReadOne(enc, src).Some? && 0 < n < ReadOne(enc, src).value.len
    ensures Begins(enc, src[..n])
  {
    assert src[..n] + src[n..] == src;
    assert Completes(enc, src[..n], src[n..]);
  }

  /** `k` bytes of `src` are whole characters and the rest is the beginning of another, or nothing. */
  ghost predicate CutAt(enc: Encoding, src: Bytes, k: nat) {
    k <= |src| && ReadAll(enc, src[..k]).Some? && (k == |src| || Begins(enc, src[k..]))
  }

  /**
   Any part of a valid byte string that ends at `n` has a cut, and what is after
   the cut, together with what follows, is the rest of the text.
   */
  lemma CutExists(enc: Encoding, src: Bytes, n: nat) returns (k: nat)
    requires ReadAll(enc, src).Some? && n <= |src|
    ensures CutAt(enc, src[..n], k) && ReadAll(enc, src[..k]).Some? && ReadAll(enc, src[k..]).Some?
    ensures ReadAll(enc, src).value == ReadAll(enc, src[..k]).value + ReadAll(enc, src[k..]).value
  {
    k := LastBoundary(enc, src, n);
    assert src[..n][..k] == src[..k] && src[..n][k..] == src[k..n];
    assert src == src[..k] + src[k..];
    ReadAllAppend(enc, src[..k], src[k..]);
  }

  lemma {:induction false} LastBoundary(enc: Encoding, src: Bytes, n: nat) returns (k: nat)
    requires ReadAll(enc, src).Some? && n <= |src|
    ensures k <= n && ReadAll(enc, src[..k]).Some? && (k == n || Begins(enc, src[k..n]))
    decreases |src|
  {
    hide ReadOne, Begins;
    if n == 0 || n < ReadOne(enc, src).value.len {
      k := 0;
      assert src[0..n] == src[..n] && src[..0] == [];
      if n > 0 { TooShort(enc, src, n); }
    } else {
      var len := ReadOne(enc, src).value.len;
      var q := LastBoundary(enc, src[len..], n - len);
      k := len + q;
      assert src[len..][..q] == src[len..k] && src[len..][q..n - len] == src[k..n];
      ReadAllFront(enc, src, k);
    }
  }

  /** Reading from the front stops at `k`. */
  predicate StopAt(enc: Encoding, src: Bytes, k: nat) {
    k <= |src| && ReadAll(enc, src[..k]).Some? && (k == |src| || ReadOne(enc, src[k..]).None?)
  }

  lemma CutIsStop(enc: Encoding, src: Bytes, k: nat)
    requires CutAt(enc, src, k)
    ensures StopAt(enc, src, k)
  {
    if k < |src| { BeginningIsNoCharacter(enc, src[k..]); }
  }

  /** It stops at one place. */
  lemma {:induction false} StopIsUnique(enc: Encoding, src: Bytes, j: nat, k: nat)
    requires StopAt(enc, src, j) && StopAt(enc, src, k)
    ensures j == k
    decreases |src|
  {
    hide ReadOne;
    if src != [] && ReadOne(enc, src).Some? {
      assert src[0..] == src;
      var len := ReadOne(enc, src).value.len;
      StopMoves(enc, src, j);
      StopMoves(enc, src, k);
      StopIsUnique(enc, src[len..], j - len, k - len);
    } else {
      if j > 0 { FrontReads(enc, src, j); }
      if k > 0 { FrontReads(enc, src, k); }
    }
  }

  lemma FrontReads(enc: Encoding, src: Bytes, k: nat)
    requires 0 < k <= |src| && ReadAll(enc, src[..k]).Some?
    ensures ReadOne(enc, src) == ReadOne(enc, src[..k]) && ReadOne(enc, src).Some?
  {
    assert src[..k] + src[k..] == src;
    ReadIsLocal(enc, src[..k], src[k..]);
  }

  lemma StopMoves(enc: Encoding, src: Bytes, k: nat)
    requires src != [] && ReadOne(enc, src).Some? && StopAt(enc, src, k)
    ensures var len := ReadOne(enc, src).value.len; len <= k && StopAt(enc, src[len..], k - len)
  {
    hide ReadOne;
    var len := ReadOne(enc, src).value.len;
    assert k > 0 by { assert src[0..] == src; }
    FrontReads(enc, src, k);
    assert src[..k][len..] == src[len..][..k - len];
    assert src[len..][k - len..] == src[k..];
  }

  /** A byte string has one cut. */
  lemma CutIsUnique(enc: Encoding, src: Bytes, j: nat, k: nat)
    requires CutAt(enc, src, j) && CutAt(enc, src, k)
    ensures j == k
  {
    CutIsStop(enc, src, j);
    CutIsStop(enc, src, k);
    StopIsUnique(enc, src, j, k);
  }
}
