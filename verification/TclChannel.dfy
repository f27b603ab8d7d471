/**
 A channel: bytes from a device, decoded and translated into text that is handed
 out a line or a number of characters at a time; and text translated, encoded
 and buffered on its way to the device.

 The device decides how many bytes each transfer moves.  What a channel delivers
 does not depend on that: with `Sound` input the lines and characters handed out
 are those of `Remaining`, which is a function of the input alone.
 */
module TclChannel {
  import opened Wrappers
  import opened TextCode
  import opened TextDecode
  import opened TextEncode

  const LF: nat := 10
  const CR: nat := 13
  const QUESTION: nat := 63

  datatype Translation = Auto | Lf | Cr | Crlf

  datatype Buffering = Full | Line | Unbuffered

  /** The encodings of a channel: two of its own, and those of the encoding tables. */
  datatype ChannelEncoding = Named(enc: Encoding) | Latin1 | Utf8Text

  // ----- line endings

  /** What one character becomes on input, and whether a carriage return is held after it. */
  function StepIn(mode: Translation, held: bool, ch: nat): (Text, bool) {
    match mode
    case Lf => ([ch], held)
    case Cr => ([if ch == CR then LF else ch], held)
    case Crlf =>
      if held && ch == LF then ([LF], false)
      else
        var before := if held then [CR] else [];
        if ch == CR then (before, true) else (before + [ch], false)
    case Auto =>
      if held && ch == LF then ([], false)
      else if ch == CR then ([LF], true)
      else ([ch], false)
  }

  function TranslatedIn(mode: Translation, held: bool, text: Text): (Text, bool)
    decreases |text|
  {
    if text == [] then ([], held)
    else
      var (first, h) := StepIn(mode, held, text[0]);
      var (rest, last) := TranslatedIn(mode, h, text[1..]);
      (first + rest, last)
  }

  lemma {:induction false} TranslatedInAppend(mode: Translation, held: bool, a: Text, b: Text)
    ensures
      var (x, h) := TranslatedIn(mode, held, a);
      var (y, last) := TranslatedIn(mode, h, b);
      TranslatedIn(mode, held, a + b) == (x + y, last)
    decreases |a|
  {
    if a == [] {
      assert a + b == b;
      assert [] + TranslatedIn(mode, held, b).0 == TranslatedIn(mode, held, b).0;
    } else {
      assert (a + b)[0] == a[0] && (a + b)[1..] == a[1..] + b;
      hide StepIn;
      var (first, h) := StepIn(mode, held, a[0]);
      TranslatedInAppend(mode, h, a[1..], b);
      var (x, last) := TranslatedIn(mode, h, a[1..]);
      assert first + (x + TranslatedIn(mode, last, b).0) == (first + x) + TranslatedIn(mode, last, b).0;
    }
  }

  lemma NothingIn(mode: Translation, held: bool, text: Text)
    ensures TranslatedIn(mode, held, text[..0]) == ([], held)
  {
  }

  lemma OneIn(mode: Translation, held: bool, ch: nat)
    ensures TranslatedIn(mode, held, [ch]) == StepIn(mode, held, ch)
  {
    var (first, h) := StepIn(mode, held, ch);
    assert [ch][1..] == [] && first + [] == first;
  }

  function TranslatedOut(mode: Translation, text: Text): Text {
    if text == [] then []
    else TranslatedOut(mode, text[..|text| - 1]) + StepOut(mode, text[|text| - 1])
  }

  function StepOut(mode: Translation, ch: nat): Text {
    if ch != LF || mode == Lf || mode == Auto then [ch]
    else if mode == Cr then [CR]
    else [CR, LF]
  }

  lemma {:induction false} TranslatedOutAppend(mode: Translation, a: Text, b: Text)
    ensures TranslatedOut(mode, a + b) == TranslatedOut(mode, a) + TranslatedOut(mode, b)
    decreases |b|
  {
    hide StepOut;
    if b == [] {
      assert a + b == a;
    } else {
      assert (a + b)[..|a + b| - 1] == a + b[..|b| - 1];
      TranslatedOutAppend(mode, a, b[..|b| - 1]);
    }
  }

  /**
   Text written with CRLF line endings and read back is the text, the carriage
   return held at its end being lost: so a text survives exactly when it does not
   end in one.
   */
  lemma {:induction false} CrlfRoundTrip(text: Text)
    ensures
      var ends := text != [] && text[|text| - 1] == CR;
      TranslatedIn(Crlf, false, TranslatedOut(Crlf, text)) == (if ends then text[..|text| - 1] else text, ends)
    decreases |text|
  {
    if text != [] {
      var front, last := text[..|text| - 1], text[|text| - 1];
      CrlfRoundTrip(front);
      assert TranslatedOut(Crlf, text) == TranslatedOut(Crlf, front) + StepOut(Crlf, last);
      hide TranslatedIn, TranslatedOut, StepOut;
      var (x, h) := TranslatedIn(Crlf, false, TranslatedOut(Crlf, front));
      TranslatedInAppend(Crlf, false, TranslatedOut(Crlf, front), StepOut(Crlf, last));
      CrlfPiece(h, last);
      EndsWith(text, front, last, x, h);
    }
  }

  /** The text of the front, the carriage return held after it, and the last character. */
  lemma EndsWith(text: Text, front: Text, last: nat, x: Text, h: bool)
    requires text != [] && front == text[..|text| - 1] && last == text[|text| - 1]
    requires h == (front != [] && front[|front| - 1] == CR) && x == if h then front[..|front| - 1] else front
    ensures x + ((if h then [CR] else []) + (if last == CR then [] else [last])) == if last == CR then front else text
  {
    var before, rest := if h then [CR] else [], if last == CR then [] else [last];
    assert x + before == front;
    assert x + (before + rest) == front + rest;
    assert text == front + [last];
  }

  lemma CrlfPiece(held: bool, ch: nat)
    ensures TranslatedIn(Crlf, held, StepOut(Crlf, ch)) ==
      ((if held then [CR] else []) + (if ch == CR then [] else [ch]), ch == CR)
  {
    var before := if held then [CR] else [];
    if ch == LF {
      assert [CR, LF] == [CR] + [LF];
      TranslatedInAppend(Crlf, held, [CR], [LF]);
      OneIn(Crlf, held, CR);
      OneIn(Crlf, true, LF);
    } else {
      OneIn(Crlf, held, ch);
      assert before + [] == before;
    }
  }

  /** With `lf` nothing changes; with `cr` a text survives exactly when it has no carriage return. */
  lemma {:induction false} PlainRoundTrips(text: Text)
    ensures TranslatedIn(Lf, false, TranslatedOut(Lf, text)) == (text, false)
    ensures TranslatedIn(Cr, false, TranslatedOut(Cr, text)).0 == text <==> CR !in text
    ensures |TranslatedIn(Cr, false, TranslatedOut(Cr, text)).0| == |text| && !TranslatedIn(Cr, false, TranslatedOut(Cr, text)).1
    decreases |text|
  {
    if text != [] {
      var front, last := text[..|text| - 1], text[|text| - 1];
      PlainRoundTrips(front);
      TranslatedInAppend(Lf, false, TranslatedOut(Lf, front), StepOut(Lf, last));
      TranslatedInAppend(Cr, false, TranslatedOut(Cr, front), StepOut(Cr, last));
      OneIn(Lf, false, last);
      OneIn(Cr, false, if last == LF then CR else last);
      var back := if last == LF || last == CR then LF else last;
      assert text == front + [last];
      var x := TranslatedIn(Cr, false, TranslatedOut(Cr, front)).0;
      assert x + [back] == text <==> x == front && back == last;
    }
  }

  /** What is read is what the first character becomes, then the rest. */
  lemma ReadsOne(mode: Translation, held: bool, ch: nat, text: Text)
    ensures
      var (first, h) := StepIn(mode, held, ch);
      TranslatedIn(mode, held, [ch] + text) == (first + TranslatedIn(mode, h, text).0, TranslatedIn(mode, h, text).1)
  {
    assert ([ch] + text)[1..] == text;
  }

  /**
   With `auto` a line feed, a carriage return and the two together are each one
   line feed, and every other character is itself.
   */
  lemma AutoReads(text: Text, ch: nat)
    requires ch != LF && ch != CR
    ensures TranslatedIn(Auto, false, [CR, LF] + text).0 == [LF] + TranslatedIn(Auto, false, text).0
    ensures text == [] || text[0] != LF ==> TranslatedIn(Auto, false, [CR] + text).0 == [LF] + TranslatedIn(Auto, false, text).0
    ensures TranslatedIn(Auto, false, [LF] + text).0 == [LF] + TranslatedIn(Auto, false, text).0
    ensures TranslatedIn(Auto, false, [ch] + text).0 == [ch] + TranslatedIn(Auto, false, text).0
  {
    hide TranslatedIn;
    ReadsOne(Auto, false, CR, [LF] + text);
    ReadsOne(Auto, true, LF, text);
    ReadsOne(Auto, false, CR, text);
    ReadsOne(Auto, false, LF, text);
    ReadsOne(Auto, false, ch, text);
    assert [CR, LF] + text == [CR] + ([LF] + text);
    if text == [] || text[0] != LF { HeldMatters(text); }
  }

  /**
   With `crlf` the two together are a line feed and every character is itself
   otherwise, a carriage return at the end being held; with `cr` a carriage return
   is a line feed; with `lf` nothing changes.
   */
  lemma OthersRead(text: Text, ch: nat)
    requires ch != CR
    ensures TranslatedIn(Crlf, false, [CR, LF] + text).0 == [LF] + TranslatedIn(Crlf, false, text).0
    ensures text != [] && text[0] != LF ==> TranslatedIn(Crlf, false, [CR] + text).0 == [CR] + TranslatedIn(Crlf, false, text).0
    ensures TranslatedIn(Crlf, false, [CR]) == ([], true)
    ensures TranslatedIn(Crlf, false, [ch] + text).0 == [ch] + TranslatedIn(Crlf, false, text).0
    ensures TranslatedIn(Cr, false, [CR] + text).0 == [LF] + TranslatedIn(Cr, false, text).0
    ensures TranslatedIn(Cr, false, [ch] + text).0 == [ch] + TranslatedIn(Cr, false, text).0
    ensures TranslatedIn(Lf, false, text) == (text, false)
  {
    hide TranslatedIn;
    LfReads(text);
    OneIn(Crlf, false, CR);
    ReadsOne(Crlf, false, CR, text);
    if text != [] && text[0] != LF { LoneReturn(text[0], text[1..], text); }
    ReadsOne(Crlf, false, CR, [LF] + text);
    ReadsOne(Crlf, true, LF, text);
    ReadsOne(Crlf, false, ch, text);
    ReadsOne(Cr, false, CR, text);
    ReadsOne(Cr, false, ch, text);
    assert [CR, LF] + text == [CR] + ([LF] + text);
  }

  lemma LoneReturn(ch: nat, rest: Text, text: Text)
    requires ch != LF && text == [ch] + rest
    ensures TranslatedIn(Crlf, true, text).0 == [CR] + TranslatedIn(Crlf, false, text).0
  {
    hide TranslatedIn;
    ReadsOne(Crlf, true, ch, rest);
    ReadsOne(Crlf, false, ch, rest);
    var then_ := TranslatedIn(Crlf, StepIn(Crlf, false, ch).1, rest).0;
    assert ([CR] + StepIn(Crlf, false, ch).0) + then_ == [CR] + (StepIn(Crlf, false, ch).0 + then_);
  }

  lemma {:induction false} LfReads(text: Text)
    ensures TranslatedIn(Lf, false, text) == (text, false)
    decreases |text|
  {
    if text != [] {
      LfReads(text[1..]);
      assert text == [text[0]] + text[1..];
    }
  }

  /** What is written of a line is the line, and the line ending of the channel; `auto` writes what `lf` does. */
  lemma LinesOut(line: Text, rest: Text)
    requires LF !in line
    ensures forall mode :: TranslatedOut(mode, line) == line
    ensures TranslatedOut(Lf, line + [LF] + rest) == line + [LF] + TranslatedOut(Lf, rest)
    ensures TranslatedOut(Auto, line + [LF] + rest) == line + [LF] + TranslatedOut(Auto, rest)
    ensures TranslatedOut(Cr, line + [LF] + rest) == line + [CR] + TranslatedOut(Cr, rest)
    ensures TranslatedOut(Crlf, line + [LF] + rest) == line + [CR, LF] + TranslatedOut(Crlf, rest)
  {
    hide TranslatedOut;
    forall mode ensures TranslatedOut(mode, line) == line && TranslatedOut(mode, line + [LF] + rest) == line + StepOut(mode, LF) + TranslatedOut(mode, rest) {
      LineOut(mode, line);
      LineOut(mode, []);
      OneOut(mode, LF);
      TranslatedOutAppend(mode, line, [LF]);
      TranslatedOutAppend(mode, line + [LF], rest);
    }
  }

  lemma OneOut(mode: Translation, ch: nat)
    ensures TranslatedOut(mode, [ch]) == StepOut(mode, ch)
  {
    assert [ch][..0] == [];
    assert [] + StepOut(mode, ch) == StepOut(mode, ch);
  }

  lemma {:induction false} LineOut(mode: Translation, line: Text)
    requires LF !in line
    ensures TranslatedOut(mode, line) == line
    decreases |line|
  {
    if line != [] {
      LineOut(mode, line[..|line| - 1]);
      assert line == line[..|line| - 1] + [line[|line| - 1]];
    }
  }

  /** A line feed reaches the bytes of a text that has one, unless line endings are carriage returns. */
  lemma {:induction false} FeedsOut(mode: Translation, text: Text)
    ensures LF in TranslatedOut(mode, text) <==> LF in text && mode != Cr
    decreases |text|
  {
    if text != [] {
      var front := text[..|text| - 1];
      FeedsOut(mode, front);
      assert text == front + [text[|text| - 1]];
    }
  }

  /** A carriage return held changes what is read only before a line feed. */
  lemma HeldMatters(text: Text)
    requires text == [] || text[0] != LF
    ensures TranslatedIn(Auto, true, text).0 == TranslatedIn(Auto, false, text).0
  {
  }

  /** No carriage return is read with `auto`. */
  lemma {:induction false} AutoHasNoReturn(held: bool, text: Text)
    ensures CR !in TranslatedIn(Auto, held, text).0
    decreases |text|
  {
    if text != [] {
      var (first, h) := StepIn(Auto, held, text[0]);
      AutoHasNoReturn(h, text[1..]);
      hide TranslatedIn;
      assert CR !in first;
    }
  }

  /** However a text was written, with `auto` it is read back exactly when it has no carriage return. */
  lemma AutoReadsBack(mode: Translation, text: Text)
    ensures TranslatedIn(Auto, false, TranslatedOut(mode, text)).0 == text <==> CR !in text
  {
    AutoHasNoReturn(false, TranslatedOut(mode, text));
    if CR !in text { AutoUndoes(mode, text); }
  }

  lemma {:induction false} AutoUndoes(mode: Translation, text: Text)
    requires CR !in text
    ensures TranslatedIn(Auto, false, TranslatedOut(mode, text)) == (text, mode == Cr && text != [] && text[|text| - 1] == LF)
    decreases |text|
  {
    if text != [] {
      var front, last := text[..|text| - 1], text[|text| - 1];
      AutoUndoes(mode, front);
      assert TranslatedOut(mode, text) == TranslatedOut(mode, front) + StepOut(mode, last);
      hide TranslatedIn, TranslatedOut, StepOut;
      TranslatedInAppend(Auto, false, TranslatedOut(mode, front), StepOut(mode, last));
      AutoPiece(mode, TranslatedIn(Auto, false, TranslatedOut(mode, front)).1, last);
      assert text == front + [last];
    }
  }

  lemma AutoPiece(mode: Translation, held: bool, ch: nat)
    requires ch != CR && (held ==> mode == Cr)
    ensures TranslatedIn(Auto, held, StepOut(mode, ch)) == ([ch], mode == Cr && ch == LF)
  {
    if ch == LF && mode == Crlf {
      assert [CR, LF] == [CR] + [LF] && [LF] + [] == [LF];
      TranslatedInAppend(Auto, held, [CR], [LF]);
      OneIn(Auto, held, CR);
      OneIn(Auto, true, LF);
    } else {
      OneIn(Auto, held, if ch == LF && mode == Cr then CR else ch);
    }
  }

  // ----- the encodings of a channel

  function Meaning(e: ChannelEncoding, src: Bytes): Option<Text> {
    match e
    case Named(enc) => ReadAll(enc, src)
    case Latin1 => Some(seq(|src|, k requires 0 <= k < |src| => src[k]))
    case Utf8Text => ReadAll(Utf8, src)
  }

  lemma MeaningOfNothing(e: ChannelEncoding)
    ensures Meaning(e, []) == Some([])
  {
    if e.Latin1? { assert Meaning(e, []).value == []; }
  }

  lemma MeaningAppend(e: ChannelEncoding, a: Bytes, b: Bytes)
    requires Meaning(e, a).Some?
    ensures Meaning(e, a + b) == if Meaning(e, b).None? then None else Some(Meaning(e, a).value + Meaning(e, b).value)
  {
    match e
    case Named(enc) => ReadAllAppend(enc, a, b);
    case Latin1 => assert Meaning(e, a + b).value == Meaning(e, a).value + Meaning(e, b).value;
    case Utf8Text => ReadAllAppend(Utf8, a, b);
  }

  function OneByte(ch: nat): byte {
    if ch < 0x100 then ch else QUESTION
  }

  function BytesOf(e: ChannelEncoding, text: Text): Option<Bytes>
    requires AllScalar(text)
  {
    match e
    case Named(enc) => EncodedAll(enc, text)
    case Latin1 => Some(seq(|text|, k requires 0 <= k < |text| => OneByte(text[k])))
    case Utf8Text => EncodedAll(Utf8, text)
  }

  lemma {:induction false} EncodedAppend(enc: Encoding, a: Text, b: Text)
    requires AllScalar(a) && AllScalar(b) && EncodedAll(enc, a).Some?
    ensures AllScalar(a + b)
    ensures EncodedAll(enc, a + b) == if EncodedAll(enc, b).None? then None else Some(EncodedAll(enc, a).value + EncodedAll(enc, b).value)
    decreases |b|
  {
    hide Encoded;
    if b == [] {
      assert a + b == a;
      assert EncodedAll(enc, a).value + [] == EncodedAll(enc, a).value;
    } else {
      assert (a + b)[..|a + b| - 1] == a + b[..|b| - 1];
      EncodedAppend(enc, a, b[..|b| - 1]);
      if EncodedAll(enc, b).Some? {
        var x, y, z := EncodedAll(enc, a).value, EncodedAll(enc, b[..|b| - 1]).value, Encoded(enc, b[|b| - 1]).value;
        assert (x + y) + z == x + (y + z);
      }
    }
  }

  lemma BytesOfAppend(e: ChannelEncoding, a: Text, b: Text)
    requires AllScalar(a) && AllScalar(b) && BytesOf(e, a).Some? && BytesOf(e, b).Some?
    ensures AllScalar(a + b) && BytesOf(e, a + b) == Some(BytesOf(e, a).value + BytesOf(e, b).value)
  {
    match e
    case Named(enc) => EncodedAppend(enc, a, b);
    case Latin1 => assert BytesOf(e, a + b).value == BytesOf(e, a).value + BytesOf(e, b).value;
    case Utf8Text => EncodedAppend(Utf8, a, b);
  }

  // ----- the device

  /** What a transfer of the device does is decided by scripts that say how much each is to move. */
  class Device {
    var input: Bytes
    var written: Bytes
    var readSizes: seq<nat>
    var writeSizes: seq<nat>
    /** How many transfers have failed. */
    ghost var failures: nat

    constructor (input: Bytes, readSizes: seq<nat>, writeSizes: seq<nat>)
      ensures this.input == input && this.readSizes == readSizes && this.writeSizes == writeSizes && written == []
    {
      this.input, this.readSizes, this.writeSizes, written, failures := input, readSizes, writeSizes, [], 0;
    }

    /** Zero bytes mean end of file; no answer is a failure. */
    method Read(most: nat) returns (r: Option<Bytes>)
      requires most > 0
      modifies this`input, this`readSizes, this`failures
      ensures failures == old(failures) + if r.None? then 1 else 0
      ensures r.None? ==> input == old(input)
      ensures r.Some? ==> r.value + input == old(input) && |r.value| <= most && (r.value == [] <==> old(input) == [])
    {
      var n := most;
      if readSizes != [] { n, readSizes := readSizes[0], readSizes[1..]; }
      if n == 0 {
        failures := failures + 1;
        return None;
      }
      if n > most { n := most; }
      if n > |input| { n := |input|; }
      r := Some(input[..n]);
      input := input[n..];
    }

    method Write(data: Bytes) returns (r: Option<nat>)
      requires data != []
      modifies this`written, this`writeSizes, this`failures
      ensures failures == old(failures) + if r.None? || r.value == 0 then 1 else 0
      ensures r.None? ==> written == old(written)
      ensures r.Some? ==> r.value <= |data| && written == old(written) + data[..r.value]
    {
      var n := |data|;
      if writeSizes != [] { n, writeSizes := writeSizes[0], writeSizes[1..]; }
      if n == 0 || n > |data| + 1 { failures := failures + 1; }
      if n > |data| + 1 { return None; }
      if n > |data| { n := |data|; }
      written := written + data[..n];
      r := Some(n);
    }
  }

  datatype Fill = More | AtEnd | Failed

  // ----- lines

  predicate HasLine(text: Text) {
    LF in text
  }

  function FirstLine(text: Text): (k: nat)
    requires HasLine(text)
    ensures k < |text| && text[k] == LF && LF !in text[..k]
  {
    if text[0] == LF then 0
    else
      assert text == [text[0]] + text[1..];
      var k := 1 + FirstLine(text[1..]);
      assert text[..k] == [text[0]] + text[1..][..k - 1];
      k
  }

  lemma NotBefore(text: Text, k: nat)
    requires k <= |text| && LF !in text[..k]
    ensures forall q :: 0 <= q < k ==> text[q] != LF
  {
    forall q | 0 <= q < k ensures text[q] != LF {
      assert text[..k][q] in text[..k];
    }
  }

  lemma FirstLineIs(text: Text, k: nat)
    requires k < |text| && text[k] == LF && LF !in text[..k]
    ensures HasLine(text) && FirstLine(text) == k
  {
    var j := FirstLine(text);
    NotBefore(text, k);
    NotBefore(text, j);
  }

  /** The first newline of a text is the first newline of what begins with it. */
  lemma FirstLineGrows(a: Text, b: Text)
    requires HasLine(a)
    ensures HasLine(a + b) && FirstLine(a + b) == FirstLine(a)
  {
    assert (a + b)[..FirstLine(a)] == a[..FirstLine(a)];
    FirstLineIs(a + b, FirstLine(a));
  }

  /** The line at the front of a text, without its newline; none when there is no text. */
  function LineOf(text: Text): Option<Text> {
    if HasLine(text) then Some(text[..FirstLine(text)])
    else if text == [] then None
    else Some(text)
  }

  function AfterLine(text: Text): Text {
    if HasLine(text) then text[FirstLine(text) + 1..] else []
  }

  // ----- the channel

  /** The encoding a channel cuts its bytes into characters by. */
  function CodeOf(e: ChannelEncoding): Encoding {
    if e.Named? then e.enc else Utf8
  }

  /** The longest valid part of some UTF-8, from the front. */
  method ValidUpTo(src: Bytes) returns (text: Text, k: nat)
    ensures k <= |src| && StopAt(Utf8, src, k) && ReadAll(Utf8, src[..k]) == Some(text)
  {
    hide ReadOne, ReadAll;
    text, k := [], 0;
    NothingRead(Utf8, src);
    while k < |src| && ReadOne(Utf8, src[k..]).Some?
      invariant k <= |src| && ReadAll(Utf8, src[..k]) == Some(text)
      decreases |src| - k
    {
      var one := ReadOne(Utf8, src[k..]).value;
      OneMoreRead(Utf8, src, k);
      text, k := text + [one.cp], k + one.len;
    }
  }

  lemma NothingRead(enc: Encoding, src: Bytes)
    ensures ReadAll(enc, src[..0]) == Some([])
  {
  }

  lemma OneMoreRead(enc: Encoding, src: Bytes, k: nat)
    requires k < |src| && ReadAll(enc, src[..k]).Some? && ReadOne(enc, src[k..]).Some?
    ensures
      var one := ReadOne(enc, src[k..]).value;
      ReadAll(enc, src[..k + one.len]) == Some(ReadAll(enc, src[..k]).value + [one.cp])
  {
    hide ReadOne;
    var one := ReadOne(enc, src[k..]).value;
    var b := src[k..][..one.len];
    ReadIsLocal(enc, src[k..], []);
    assert src[..k + one.len] == src[..k] + b && b[one.len..] == [];
    assert [one.cp] + [] == [one.cp];
    assert ReadAll(enc, b[one.len..]) == Some([]);
    ReadAllAppend(enc, src[..k], b);
  }

  lemma {:induction false} OutIsScalar(mode: Translation, text: Text)
    requires AllScalar(text)
    ensures AllScalar(TranslatedOut(mode, text))
    decreases |text|
  {
    if text != [] { OutIsScalar(mode, text[..|text| - 1]); }
  }

  class Channel {
    const device: Device
    const encoding: ChannelEncoding
    const inputTranslation: Translation
    const outputTranslation: Translation
    const buffering: Buffering
    const bufferSize: nat
    /** How the bytes of a broken tail are shown at end of file. */
    const lossy: Bytes -> Text

    /** Bytes read and not yet decoded. */
    var raw: Bytes
    /** Characters decoded and translated, not yet handed out. */
    var pending: Text
    var deviceEof: bool
    /** The last character was a carriage return. */
    var sawCr: bool
    /** Bytes written and not yet handed to the device. */
    var out: Bytes

    /** The bytes decoded so far, all that were read, and the text handed out. */
    ghost var decoded: Bytes
    ghost var taken: Bytes
    ghost var given: Text
    /** The text written, and whether the device has refused none of it. */
    ghost var sent: Text
    ghost var intact: bool

    constructor (device: Device, encoding: ChannelEncoding, inputTranslation: Translation, outputTranslation: Translation,
                 buffering: Buffering, bufferSize: nat, lossy: Bytes -> Text)
      requires device.written == []
      ensures ReadValid() && this.device == device && this.encoding == encoding
      ensures this.inputTranslation == inputTranslation && this.outputTranslation == outputTranslation
      ensures taken == [] && given == [] && sent == [] && intact && !deviceEof && WriteValid()
      ensures encoding != Named(Cesu8) && Meaning(encoding, device.input).Some? ==> Sound() && Remaining() == Stream()
    {
      this.device, this.encoding, this.inputTranslation, this.outputTranslation := device, encoding, inputTranslation, outputTranslation;
      this.buffering, this.bufferSize, this.lossy := buffering, bufferSize, lossy;
      raw, pending, deviceEof, sawCr, out := [], [], false, false, [];
      decoded, taken, given, sent, intact := [], [], [], [], true;
      new;
      assert given + pending == [] && taken[|decoded|..] == [];
      MeaningOfNothing(encoding);
      NothingOut();
      assert taken + device.input == device.input && taken[..0] == [];
    }

    lemma NothingOut()
      ensures BytesOut([]) == Some([])
    {
      if encoding == Latin1 { assert BytesOut([]).value == []; }
    }

    // ----- reading

    /** A tail that is no character by the end of the input. */
    ghost function Broken(): Text
      reads this
      requires |decoded| <= |taken|
    {
      if |decoded| == |taken| then [] else TranslatedIn(inputTranslation, false, lossy(taken[|decoded|..])).0
    }

    /**
     Conservation: the text handed out and the text pending are the translation
     of what the bytes read stand for.
     */
    ghost predicate ReadValid()
      reads this
    {
      && decoded <= taken
      && Meaning(encoding, decoded).Some?
      && var (text, held) := TranslatedIn(inputTranslation, false, Meaning(encoding, decoded).value);
         if deviceEof then raw == [] && given + pending == text + Broken()
         else raw == taken[|decoded|..] && (text, held) == (given + pending, sawCr)
    }

    /** All the text of the input, read and to be read. */
    ghost function Stream(): Text
      reads this, device
    {
      var all := Meaning(encoding, taken + device.input);
      if all.None? then [] else TranslatedIn(inputTranslation, false, all.value).0
    }

    /** The input is valid, in an encoding whose characters may be divided anywhere, and all of it has been accounted for. */
    ghost predicate Sound()
      reads this, device
    {
      && encoding != Named(Cesu8)
      && Meaning(encoding, taken + device.input).Some?
      && if deviceEof then device.input == [] && decoded == taken
         else if encoding == Latin1 then raw == []
         else CutAt(CodeOf(encoding), taken, |decoded|)
    }

    /** The text still to be handed out. */
    ghost function Remaining(): Text
      reads this, device
    {
      if |given| <= |Stream()| then Stream()[|given|..] else []
    }

    method TranslateIn(text: Text)
      modifies this`pending, this`sawCr
      ensures pending == old(pending) + TranslatedIn(inputTranslation, old(sawCr), text).0
      ensures sawCr == TranslatedIn(inputTranslation, old(sawCr), text).1
    {
      hide TranslatedIn;
      ghost var before, held := pending, sawCr;
      NothingIn(inputTranslation, held, text);
      for k := 0 to |text|
        invariant pending == before + TranslatedIn(inputTranslation, held, text[..k]).0
        invariant sawCr == TranslatedIn(inputTranslation, held, text[..k]).1
      {
        TranslatedInAppend(inputTranslation, held, text[..k], [text[k]]);
        OneIn(inputTranslation, sawCr, text[k]);
        assert text[..k + 1] == text[..k] + [text[k]];
        var (emitted, h) := StepIn(inputTranslation, sawCr, text[k]);
        pending, sawCr := pending + emitted, h;
      }
      assert text[..|text|] == text;
    }

    /** Move every complete character out of `raw` and through the translation. */
    method Decode() returns (ok: bool)
      requires ReadValid() && !deviceEof
      modifies this`raw, this`pending, this`sawCr, this`decoded
      ensures ReadValid()
      ensures encoding == Latin1 ==> ok && raw == []
      ensures !ok ==> encoding.Named? && raw == old(raw) && pending == old(pending)
      ensures forall k: nat :: encoding != Latin1 && encoding != Named(Cesu8) && CutAt(CodeOf(encoding), old(raw), k) ==>
        ok && raw == old(raw)[k..]
    {
      hide CutAt, ReadAll, ReadOne, StopAt, TranslatedIn;
      var text, used := [], 0;
      match encoding {
        case Named(enc) =>
          var r := StreamDecode(enc, raw);
          if r.None? { return false; }
          text, used := r.value.0, r.value.1;
        case Latin1 =>
          text, used := seq(|raw|, k requires 0 <= k < |raw| reads this => raw[k]), |raw|;
          assert raw[..|raw|] == raw;
        case Utf8Text =>
          text, used := ValidUpTo(raw);
          forall k: nat | CutAt(Utf8, raw, k) ensures k == used {
            CutIsStop(Utf8, raw, k);
            StopIsUnique(Utf8, raw, k, used);
          }
      }
      if encoding == Latin1 { assert Meaning(encoding, raw[..used]).value == text; }
      assert Meaning(encoding, raw[..used]) == Some(text);
      MeaningAppend(encoding, decoded, raw[..used]);
      TranslatedInAppend(inputTranslation, false, Meaning(encoding, decoded).value, text);
      assert (decoded + raw[..used]) + raw[used..] == taken;
      decoded := decoded + raw[..used];
      raw := raw[used..];
      assert raw == taken[|decoded|..];
      ghost var before := pending;
      TranslateIn(text);
      assert given + pending == (given + before) + TranslatedIn(inputTranslation, old(sawCr), text).0;
      ok := true;
    }

    /** Where the bytes not decoded are cut once more have come. */
    lemma FindCut(chunk: Bytes, after: Bytes) returns (k: nat)
      requires ReadValid() && !deviceEof && encoding != Latin1
      requires CutAt(CodeOf(encoding), taken, |decoded|) && Meaning(encoding, taken + chunk + after).Some?
      ensures k <= |raw + chunk| && CutAt(CodeOf(encoding), raw + chunk, k) && CutAt(CodeOf(encoding), taken + chunk, |decoded| + k)
    {
      hide ReadOne, ReadAll, Begins, TranslatedIn;
      var enc := CodeOf(encoding);
      var src := raw + (chunk + after);
      assert taken + chunk + after == decoded + src;
      ReadAllAppend(enc, decoded, src);
      k := CutExists(enc, src, |raw + chunk|);
      assert src[..|raw + chunk|] == raw + chunk;
      ReadAllAppend(enc, decoded, (raw + chunk)[..k]);
      assert (taken + chunk)[..|decoded| + k] == decoded + (raw + chunk)[..k];
      assert (taken + chunk)[|decoded| + k..] == (raw + chunk)[k..];
    }

    /** When the input has ended nothing is left undecoded. */
    lemma EverythingDecoded()
      requires ReadValid() && !deviceEof && Meaning(encoding, taken).Some?
      requires if encoding == Latin1 then raw == [] else CutAt(CodeOf(encoding), taken, |decoded|)
      ensures decoded == taken
    {
      hide ReadOne, Begins;
      if encoding != Latin1 {
        assert taken[..|taken|] == taken;
        CutIsUnique(CodeOf(encoding), taken, |decoded|, |taken|);
      }
    }

    /** What has been handed out and what is pending are the front of the stream, and at its end all of it. */
    lemma StreamSoFar()
      requires ReadValid() && Sound()
      ensures given + pending <= Stream() && (deviceEof ==> given + pending == Stream())
      ensures pending <= Remaining() && (deviceEof ==> pending == Remaining())
      ensures Stream() == given + Remaining()
    {
      hide ReadOne, ReadAll, TranslatedIn;
      var rest := taken[|decoded|..] + device.input;
      assert taken + device.input == decoded + rest;
      if deviceEof {
        assert taken + device.input == decoded;
        assert given + pending == Stream() + [];
      } else {
        MeaningAppend(encoding, decoded, rest);
        TranslatedInAppend(inputTranslation, false, Meaning(encoding, decoded).value, Meaning(encoding, rest).value);
      }
    }

    /** One pass of the read pipeline. */
    method FillOnce() returns (r: Fill)
      requires ReadValid()
      modifies this`raw, this`pending, this`sawCr, this`deviceEof, this`decoded, this`taken, device`input, device`readSizes, device`failures
      ensures ReadValid()
      ensures |device.input| <= |old(device.input)| && (r == More ==> |device.input| < |old(device.input)|)
      ensures r == AtEnd ==> deviceEof
      ensures old(Sound()) ==> Sound() && Stream() == old(Stream())
      ensures device.failures >= old(device.failures)
      ensures old(Sound()) || !encoding.Named? ==> (r == Failed <==> device.failures > old(device.failures))
      ensures old(Sound()) && r == AtEnd ==> pending == old(pending)
    {
      hide CutAt, ReadAll, ReadOne, TranslatedIn, Meaning;
      if deviceEof { return AtEnd; }
      ghost var sound := Sound();
      var size := if bufferSize < 1 then 1 else if bufferSize > 0x10_0000 then 0x10_0000 else bufferSize;
      var chunk := device.Read(size);
      if chunk.None? { return Failed; }
      var n := chunk.value;
      if n == [] {
        assert taken + old(device.input) == taken;
        if sound { EverythingDecoded(); }
        deviceEof := true;
        sawCr := false;
        if raw != [] {
          var tail := raw;
          raw := [];
          ghost var before := pending;
          TranslateIn(lossy(tail));
          assert given + pending == (given + before) + Broken();
        } else {
          assert given + pending == (given + pending) + Broken();
        }
        return AtEnd;
      }
      assert (taken + n) + device.input == old(taken + device.input);
      ghost var k: nat, start := 0, |decoded|;
      if sound && encoding != Latin1 { k := FindCut(n, device.input); }
      assert (taken + n)[|decoded|..] == taken[|decoded|..] + n;
      raw := raw + n;
      taken := taken + n;
      var ok := Decode();
      assert taken + device.input == old(taken + device.input);
      assert |raw| == |taken| - |decoded|;
      assert sound && encoding != Latin1 ==> ok && |decoded| == start + k;
      return if ok then More else Failed;
    }

    /** Hand out characters from the front of what is pending. */
    method HandOut(count: nat) returns (text: Text)
      requires ReadValid() && count <= |pending|
      modifies this`pending, this`given
      ensures text == old(pending)[..count] && pending == old(pending)[count..] && given == old(given) + text
      ensures ReadValid()
      ensures old(Sound()) ==> Sound() && Stream() == old(Stream())
    {
      text := pending[..count];
      assert given + pending == (given + text) + pending[count..];
      given := given + text;
      pending := pending[count..];
    }

    /** The next line without its terminator, or none at end of file. */
    method Gets() returns (ok: bool, line: Option<Text>)
      requires ReadValid()
      modifies this`raw, this`pending, this`sawCr, this`deviceEof, this`decoded, this`taken, this`given, device`input, device`readSizes, device`failures
      ensures ReadValid()
      ensures old(Sound()) ==> Sound() && Stream() == old(Stream())
      ensures ok ==>
        || (line.Some? && LF !in line.value && given == old(given) + line.value + [LF])
        || (deviceEof && pending == [] && given == old(given) + (if line.Some? then line.value else []) && line != Some([]))
      ensures old(Sound()) && ok ==> line == LineOf(old(Remaining())) && Remaining() == AfterLine(old(Remaining()))
      ensures !ok ==> given == old(given)
      ensures old(Sound()) || !encoding.Named? ==> (ok <==> device.failures == old(device.failures))
    {
      hide ReadValid, Sound, Stream;
      ghost var sound, ahead := Sound(), Remaining();
      while !HasLine(pending)
        invariant ReadValid() && given == old(given)
        invariant sound ==> Sound() && Stream() == old(Stream())
        invariant sound || !encoding.Named? ==> device.failures == old(device.failures)
        decreases |device.input|
      {
        var r := FillOnce();
        if r == Failed { return false, None; }
        if r == AtEnd {
          if sound { StreamSoFar(); }
          line := if pending == [] then None else Some(pending);
          var rest := HandOut(|pending|);
          if sound { StreamSoFar(); }
          return true, line;
        }
      }
      if sound { StreamSoFar(); }
      var at := FirstLine(pending);
      if sound {
        assert ahead == pending + ahead[|pending|..] && ahead[..at] == pending[..at];
        FirstLineGrows(pending, ahead[|pending|..]);
      }
      line := Some(pending[..at]);
      assert pending[..at + 1] == pending[..at] + [LF];
      assert given + pending[..at + 1] == given + pending[..at] + [LF];
      var taken := HandOut(at + 1);
      if sound { StreamSoFar(); }
      ok := true;
    }

    /** A number of characters, or fewer at end of file. */
    method ReadChars(count: nat) returns (ok: bool, text: Text)
      requires ReadValid()
      modifies this`raw, this`pending, this`sawCr, this`deviceEof, this`decoded, this`taken, this`given, device`input, device`readSizes, device`failures
      ensures ReadValid()
      ensures old(Sound()) ==> Sound() && Stream() == old(Stream())
      ensures ok ==> given == old(given) + text && |text| <= count && (|text| < count ==> deviceEof && pending == [])
      ensures old(Sound()) && ok ==>
        var n := if count < |old(Remaining())| then count else |old(Remaining())|;
        text == old(Remaining())[..n] && Remaining() == old(Remaining())[n..]
      ensures !ok ==> given == old(given)
      ensures old(Sound()) || !encoding.Named? ==> (ok <==> device.failures == old(device.failures))
    {
      hide ReadValid, Sound, Stream;
      ghost var sound, ahead := Sound(), Remaining();
      while |pending| < count
        invariant ReadValid() && given == old(given)
        invariant sound ==> Sound() && Stream() == old(Stream())
        invariant sound || !encoding.Named? ==> device.failures == old(device.failures)
        decreases |device.input|
      {
        var r := FillOnce();
        if r == Failed { return false, []; }
        if r == AtEnd { break; }
      }
      if sound { StreamSoFar(); }
      var n := if count < |pending| then count else |pending|;
      text := HandOut(n);
      if sound { StreamSoFar(); }
      ok := true;
    }

    /** Everything up to end of file. */
    method ReadRest() returns (ok: bool, text: Text)
      requires ReadValid()
      modifies this`raw, this`pending, this`sawCr, this`deviceEof, this`decoded, this`taken, this`given, device`input, device`readSizes, device`failures
      ensures ReadValid()
      ensures old(Sound()) ==> Sound() && Stream() == old(Stream())
      ensures ok ==> given == old(given) + text && deviceEof && pending == []
      ensures old(Sound()) && ok ==> text == old(Remaining()) && Remaining() == []
      ensures !ok ==> given == old(given)
      ensures old(Sound()) || !encoding.Named? ==> (ok <==> device.failures == old(device.failures))
    {
      hide ReadValid, Sound, Stream;
      ghost var sound := Sound();
      var more := true;
      while more
        invariant ReadValid() && given == old(given)
        invariant sound ==> Sound() && Stream() == old(Stream())
        invariant sound || !encoding.Named? ==> device.failures == old(device.failures)
        invariant !more ==> deviceEof
        decreases |device.input|, if more then 1 else 0
      {
        var r := FillOnce();
        if r == Failed { return false, []; }
        more := r == More;
      }
      if sound { StreamSoFar(); }
      text := HandOut(|pending|);
      if sound { StreamSoFar(); }
      ok := true;
    }

    // ----- writing

    /** Conservation: the device and the buffer hold the encoding of everything written. */
    ghost predicate WriteValid()
      reads this, device
    {
      intact ==> AllScalar(sent) && BytesOut(sent) == Some(device.written + out)
    }

    /** The bytes a text is on the device. */
    ghost function BytesOut(text: Text): Option<Bytes>
      requires AllScalar(text)
    {
      OutIsScalar(outputTranslation, text);
      BytesOf(encoding, TranslatedOut(outputTranslation, text))
    }

    lemma BytesOutAppend(a: Text, b: Text)
      requires AllScalar(a) && AllScalar(b) && BytesOut(a).Some? && BytesOut(b).Some?
      ensures AllScalar(a + b) && BytesOut(a + b) == Some(BytesOut(a).value + BytesOut(b).value)
    {
      OutIsScalar(outputTranslation, a);
      OutIsScalar(outputTranslation, b);
      TranslatedOutAppend(outputTranslation, a, b);
      BytesOfAppend(encoding, TranslatedOut(outputTranslation, a), TranslatedOut(outputTranslation, b));
    }

    method Encode(text: Text) returns (r: Option<Bytes>)
      requires AllScalar(text)
      ensures r == BytesOf(encoding, text)
    {
      match encoding {
        case Named(enc) => r := StreamEncode(enc, text);
        case Utf8Text => r := StreamEncode(Utf8, text);
        case Latin1 =>
          var bytes: Bytes := [];
          for k := 0 to |text|
            invariant bytes == seq(k, j requires 0 <= j < k => OneByte(text[j]))
          {
            bytes := bytes + [OneByte(text[k])];
          }
          r := Some(bytes);
      }
    }

    /** Hand everything buffered to the device; what a failing device refuses is lost. */
    method Flush() returns (ok: bool)
      requires WriteValid()
      modifies this`out, this`intact, device`written, device`writeSizes, device`failures
      ensures WriteValid() && out == [] && intact == (old(intact) && ok)
      ensures old(device.written) <= device.written <= old(device.written + out)
      ensures ok ==> device.written == old(device.written + out)
      ensures device.failures >= old(device.failures) && (ok <==> device.failures == old(device.failures))
    {
      var data := out;
      out := [];
      var at := 0;
      ghost var before := device.written;
      assert before + data == before + data + [];
      while at < |data|
        invariant at <= |data| && device.written == before + data[..at] && out == [] && intact == old(intact)
        invariant device.failures == old(device.failures)
      {
        var n := device.Write(data[at..]);
        if n.None? || n.value == 0 {
          intact := false;
          assert before + data == (before + data[..at]) + data[at..];
          return false;
        }
        assert data[..at] + data[at..][..n.value] == data[..at + n.value];
        at := at + n.value;
      }
      assert data[..|data|] == data;
      return true;
    }

    /** Whether a text that leaves `all` in the buffer sends it to the device. */
    predicate Goes(text: Text, all: Bytes) {
      match buffering
      case Unbuffered => true
      case Line => LF in TranslatedOut(outputTranslation, text)
      case Full => |all| >= bufferSize
    }

    /** Write some text; false when it cannot be encoded or the device fails. */
    method Write(text: Text) returns (ok: bool)
      requires WriteValid() && AllScalar(text)
      modifies this`out, this`sent, this`intact, device`written, device`writeSizes, device`failures
      ensures WriteValid()
      ensures sent == if BytesOut(text).Some? then old(sent) + text else old(sent)
      ensures BytesOut(text).None? ==> !ok && out == old(out) && device.written == old(device.written)
      ensures ok ==> intact == old(intact)
      ensures BytesOut(text).Some? ==>
        var all := old(out) + BytesOut(text).value;
        && (ok <==> device.failures == old(device.failures))
        && out == (if Goes(text, all) then [] else all)
        && (!Goes(text, all) ==> device.written == old(device.written))
        && (Goes(text, all) && ok ==> device.written == old(device.written) + all)
      ensures ok ==> match buffering
        case Unbuffered => out == []
        case Line => LF in text && outputTranslation != Cr ==> out == []
        case Full => out == [] || |out| < bufferSize
    {
      FeedsOut(outputTranslation, text);
      OutIsScalar(outputTranslation, text);
      var translated := TranslatedOut(outputTranslation, text);
      var bytes := Encode(translated);
      if bytes.None? { return false; }
      if intact {
        BytesOutAppend(sent, text);
        assert device.written + (out + bytes.value) == (device.written + out) + bytes.value;
      }
      out := out + bytes.value;
      sent := sent + text;
      var ready :=
        match buffering
        case Unbuffered => true
        case Line => LF in translated
        case Full => |out| >= bufferSize;
      ok := true;
      if ready { ok := Flush(); }
    }
  }

  /** What a text is encoded as stands for it; Latin-1 has a question mark for a character past U+00FF. */
  lemma MeaningOfBytes(e: ChannelEncoding, text: Text, bytes: Bytes)
    requires AllScalar(text) && (e.Named? && e.enc.ByTable? ==> WellFormed(e.enc.table)) && BytesOf(e, text) == Some(bytes)
    ensures Meaning(e, bytes).Some? && |Meaning(e, bytes).value| == |text|
    ensures forall k :: 0 <= k < |text| ==>
      Meaning(e, bytes).value[k] == if e == Latin1 && text[k] > 0xFF then '?' as int else text[k]
  {
    match e
    case Named(enc) => DecodeOfEncode(enc, text);
    case Latin1 =>
    case Utf8Text => DecodeOfEncode(Utf8, text);
  }

  /**
   What one channel wrote, another with the same encoding and line endings reads:
   with CRLF line endings it is the text, but for a carriage return at its end.
   */
  lemma WriteThenRead(enc: Encoding, text: Text, bytes: Bytes)
    requires AllScalar(text) && AllScalar(TranslatedOut(Crlf, text)) && (enc.ByTable? ==> WellFormed(enc.table))
    requires BytesOf(Named(enc), TranslatedOut(Crlf, text)) == Some(bytes)
    ensures Meaning(Named(enc), bytes).Some?
    ensures
      var back := TranslatedIn(Crlf, false, Meaning(Named(enc), bytes).value).0;
      back == text <==> text == [] || text[|text| - 1] != CR
  {
    DecodeOfEncode(enc, TranslatedOut(Crlf, text));
    CrlfRoundTrip(text);
  }

  /** Whatever line endings it was written with, an `auto` channel reads a text back exactly when it has no carriage return. */
  lemma WriteThenReadAuto(enc: Encoding, mode: Translation, text: Text, bytes: Bytes)
    requires AllScalar(text) && AllScalar(TranslatedOut(mode, text)) && (enc.ByTable? ==> WellFormed(enc.table))
    requires BytesOf(Named(enc), TranslatedOut(mode, text)) == Some(bytes)
    ensures Meaning(Named(enc), bytes).Some?
    ensures TranslatedIn(Auto, false, Meaning(Named(enc), bytes).value).0 == text <==> CR !in text
  {
    DecodeOfEncode(enc, TranslatedOut(mode, text));
    AutoReadsBack(mode, text);
  }
}
