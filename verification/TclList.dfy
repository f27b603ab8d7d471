/**
 Tcl list syntax: splitting a string into elements, and writing elements so that
 splitting gives them back.

 A string is a sequence of characters.  Every character the syntax treats
 specially is an ASCII one, so nothing is lost by not modelling the bytes of the
 others.
 */
module TclList {
  import opened Wrappers

  datatype ListError = UnmatchedBrace | UnmatchedQuote | JunkAfterBraces(at: nat) | JunkAfterQuotes(at: nat)

  const BACKSLASH: char := '\\'
  const NEWLINE: char := '\n'
  const TAB: char := '\t'
  const RETURN: char := '\r'
  const VERTICAL_TAB: char := 11 as char
  const FORM_FEED: char := 12 as char
  const REPLACEMENT: char := 0xFFFD as char

  /** White space, to the list parser and generator. */
  predicate IsSpace(c: char) {
    c == ' ' || 9 as char <= c <= 13 as char
  }

  // ----- backslash sequences

  /** What a backslash sequence stands for, and where it ends. */
  datatype Escape = Escape(text: string, next: nat)

  function DigitValue(c: char, radix: nat): Option<nat> {
    var v :=
      if '0' <= c <= '9' then (c as int - '0' as int) as nat
      else if 'a' <= c <= 'f' then (c as int - 'a' as int + 10) as nat
      else if 'A' <= c <= 'F' then (c as int - 'A' as int + 10) as nat
      else 16;
    if v < radix then Some(v) else None
  }

  /** Read up to `left` digits, stopping before the value would exceed `limit`. */
  function ScanRadix(s: string, p: nat, radix: nat, left: nat, limit: nat, value: nat): (r: (nat, nat))
    requires p <= |s|
    ensures p <= r.1 <= |s|
    ensures forall t :: p <= t < r.1 ==> DigitValue(s[t], radix).Some?
    decreases left
  {
    if left == 0 || p >= |s| || DigitValue(s[p], radix).None? then (value, p)
    else
      var next := value * radix + DigitValue(s[p], radix).value;
      if next > limit then (value, p) else ScanRadix(s, p + 1, radix, left - 1, limit, next)
  }

  /** A code point as text; a lone surrogate has no character. */
  function CodePoint(value: nat): string {
    if value < 0xD800 || 0xE000 <= value <= 0x10FFFF then [value as char] else [REPLACEMENT]
  }

  function Numbered(s: string, at: nat, left: nat, limit: nat): (e: Escape)
    requires at + 1 < |s|
    ensures at + 2 <= e.next <= |s|
  {
    var (value, next) := ScanRadix(s, at + 2, 16, left, limit, 0);
    if next == at + 2 then Escape([s[at + 1]], next) else Escape(CodePoint(value), next)
  }

  function SkipBlanks(s: string, p: nat): (q: nat)
    requires p <= |s|
    ensures p <= q <= |s|
    decreases |s| - p
  {
    if p < |s| && (s[p] == ' ' || s[p] == TAB) then SkipBlanks(s, p + 1) else p
  }

  /** The backslash sequence at `at`. */
  function BackslashAt(s: string, at: nat): (e: Escape)
    requires at < |s|
    ensures at < e.next <= |s|
  {
    if at + 1 == |s| then Escape("\\", at + 1)
    else
      var c := s[at + 1];
      if c == NEWLINE then Escape(" ", SkipBlanks(s, at + 2))
      else if c == 'a' then Escape([7 as char], at + 2)
      else if c == 'b' then Escape([8 as char], at + 2)
      else if c == 'f' then Escape([FORM_FEED], at + 2)
      else if c == 'n' then Escape([NEWLINE], at + 2)
      else if c == 'r' then Escape([RETURN], at + 2)
      else if c == 't' then Escape([TAB], at + 2)
      else if c == 'v' then Escape([VERTICAL_TAB], at + 2)
      else if c == 'x' then Numbered(s, at, 2, 0xFF)
      else if c == 'u' then Numbered(s, at, 4, 0x10FFFF)
      else if c == 'U' then Numbered(s, at, 8, 0x10FFFF)
      else if '0' <= c <= '7' then
        var (value, next) := ScanRadix(s, at + 1, 8, 3, 0xFF, 0);
        Escape(CodePoint(value), if next > at + 1 then next else at + 2)
      else Escape([c], at + 2)
  }

  /** A sequence that is not a line continuation swallows digits at most, after the character it names. */
  lemma EscapeSwallows(s: string, at: nat)
    requires at + 1 < |s| && s[at + 1] != NEWLINE
    ensures at + 2 <= BackslashAt(s, at).next
    ensures forall t :: at + 2 <= t < BackslashAt(s, at).next ==> DigitValue(s[t], 16).Some?
    ensures s[at + 1] == '{' || s[at + 1] == '}' || s[at + 1] == BACKSLASH ==> BackslashAt(s, at).next == at + 2
  {
  }

  // ----- splitting, as a function

  /** Resolve the backslash sequences of a text from `i` on. */
  function Collapsed(text: string, i: nat): string
    requires i <= |text|
    decreases |text| - i
  {
    if i == |text| then ""
    else if text[i] == BACKSLASH then
      var e := BackslashAt(text, i);
      e.text + Collapsed(text, e.next)
    else [text[i]] + Collapsed(text, i + 1)
  }

  function SkipSpace(s: string, p: nat): (q: nat)
    requires p <= |s|
    ensures p <= q <= |s| && (q < |s| ==> !IsSpace(s[q]))
    decreases |s| - p
  {
    if p < |s| && IsSpace(s[p]) then SkipSpace(s, p + 1) else p
  }

  /** The close brace that matches `depth` open ones. */
  function CloseBrace(s: string, p: nat, depth: nat): (q: Option<nat>)
    requires p <= |s| && depth > 0
    ensures q.Some? ==> p <= q.value < |s|
    decreases |s| - p
  {
    if p == |s| then None
    else if s[p] == '{' then CloseBrace(s, p + 1, depth + 1)
    else if s[p] == '}' then (if depth == 1 then Some(p) else CloseBrace(s, p + 1, depth - 1))
    else if s[p] == BACKSLASH then CloseBrace(s, BackslashAt(s, p).next, depth)
    else CloseBrace(s, p + 1, depth)
  }

  function CloseQuote(s: string, p: nat): (q: Option<nat>)
    requires p <= |s|
    ensures q.Some? ==> p <= q.value < |s|
    decreases |s| - p
  {
    if p == |s| then None
    else if s[p] == '"' then Some(p)
    else if s[p] == BACKSLASH then CloseQuote(s, BackslashAt(s, p).next)
    else CloseQuote(s, p + 1)
  }

  /** The end of an element that is neither in braces nor in quotes. */
  function BareEnd(s: string, p: nat): (q: nat)
    requires p <= |s|
    ensures p <= q <= |s|
    decreases |s| - p
  {
    if p == |s| || IsSpace(s[p]) then p
    else if s[p] == BACKSLASH then BareEnd(s, BackslashAt(s, p).next)
    else BareEnd(s, p + 1)
  }

  /** The element that starts at `p`, and the position after it. */
  function ElementAt(s: string, p: nat): (r: Result<(string, nat), ListError>)
    requires p < |s| && !IsSpace(s[p])
    ensures r.Ok? ==> p < r.value.1 <= |s|
  {
    if s[p] == '{' then
      var close := CloseBrace(s, p + 1, 1);
      if close.None? then Err(UnmatchedBrace)
      else if close.value + 1 < |s| && !IsSpace(s[close.value + 1]) then Err(JunkAfterBraces(close.value + 1))
      else Ok((s[p + 1..close.value], close.value + 1))
    else if s[p] == '"' then
      var close := CloseQuote(s, p + 1);
      if close.None? then Err(UnmatchedQuote)
      else if close.value + 1 < |s| && !IsSpace(s[close.value + 1]) then Err(JunkAfterQuotes(close.value + 1))
      else Ok((Collapsed(s[p + 1..close.value], 0), close.value + 1))
    else
      BareGoesOn(s, p);
      var end := BareEnd(s, p);
      Ok((Collapsed(s[p..end], 0), end))
  }

  lemma BareGoesOn(s: string, p: nat)
    requires p < |s| && !IsSpace(s[p])
    ensures BareEnd(s, p) > p
  {
  }

  function Prepend(xs: seq<string>, r: Result<seq<string>, ListError>): Result<seq<string>, ListError> {
    if r.Ok? then Ok(xs + r.value) else r
  }

  lemma Prepends(xs: seq<string>, ys: seq<string>, r: Result<seq<string>, ListError>)
    ensures Prepend([], r) == r && Prepend(xs, Prepend(ys, r)) == Prepend(xs + ys, r)
  {
    if r.Ok? { assert [] + r.value == r.value && xs + (ys + r.value) == xs + ys + r.value; }
  }

  /** The elements of a list from `p` on. */
  function Elements(s: string, p: nat): Result<seq<string>, ListError>
    requires p <= |s|
    decreases |s| - p
  {
    var q := SkipSpace(s, p);
    if q == |s| then Ok([])
    else
      var e := ElementAt(s, q);
      if e.Err? then Err(e.error) else Prepend([e.value.0], Elements(s, e.value.1))
  }

  // ----- splitting, as the program does it

  method Collapse(text: string) returns (out: string)
    ensures out == Collapsed(text, 0)
  {
    out := "";
    var i := 0;
    while i < |text|
      invariant i <= |text| && out + Collapsed(text, i) == Collapsed(text, 0)
    {
      ghost var before := out;
      if text[i] == BACKSLASH {
        var e := BackslashAt(text, i);
        out := out + e.text;
        assert before + Collapsed(text, i) == out + Collapsed(text, e.next);
        i := e.next;
      } else {
        out := out + [text[i]];
        assert before + Collapsed(text, i) == out + Collapsed(text, i + 1);
        i := i + 1;
      }
    }
  }

  /** A text without backslashes is what it stands for. */
  lemma {:induction false} NothingToCollapse(text: string, i: nat)
    requires i <= |text| && BACKSLASH !in text[i..]
    ensures Collapsed(text, i) == text[i..]
    decreases |text| - i
  {
    if i < |text| {
      assert text[i..] == [text[i]] + text[i + 1..];
      NothingToCollapse(text, i + 1);
    }
  }

  /** The element in braces that close at `close`. */
  lemma BracedIs(s: string, at: nat, close: Option<nat>)
    requires at < |s| && s[at] == '{' && !IsSpace(s[at]) && CloseBrace(s, at + 1, 1) == close
    ensures ElementAt(s, at) ==
      if close.None? then Err(UnmatchedBrace)
      else if close.value + 1 < |s| && !IsSpace(s[close.value + 1]) then Err(JunkAfterBraces(close.value + 1))
      else Ok((s[at + 1..close.value], close.value + 1))
  {
  }

  /** The element in quotes that close at `close`. */
  lemma QuotedIs(s: string, at: nat, close: Option<nat>)
    requires at < |s| && s[at] == '"' && !IsSpace(s[at]) && CloseQuote(s, at + 1) == close
    ensures ElementAt(s, at) ==
      if close.None? then Err(UnmatchedQuote)
      else if close.value + 1 < |s| && !IsSpace(s[close.value + 1]) then Err(JunkAfterQuotes(close.value + 1))
      else Ok((Collapsed(s[at + 1..close.value], 0), close.value + 1))
  {
  }

  /** The element in neither that ends at `end`. */
  lemma BareIs(s: string, at: nat, end: nat)
    requires at < |s| && s[at] != '{' && s[at] != '"' && !IsSpace(s[at]) && BareEnd(s, at) == end
    ensures at < end <= |s| && ElementAt(s, at) == Ok((Collapsed(s[at..end], 0), end))
  {
    BareGoesOn(s, at);
  }

  lemma MarksAreNoSpace()
    ensures !IsSpace('{') && !IsSpace('}') && !IsSpace('"') && !IsSpace(BACKSLASH)
  {
  }

  lemma PlainText(s: string, from: nat, to: nat)
    requires from <= to <= |s| && forall k :: from <= k < to ==> s[k] != BACKSLASH
    ensures Collapsed(s[from..to], 0) == s[from..to]
  {
    var text := s[from..to];
    assert text[0..] == text;
    NothingToCollapse(text, 0);
  }

  /** The element that starts at `at`, and the position after it. */
  method FindElement(s: string, at: nat) returns (r: Result<(string, nat), ListError>)
    requires at < |s| && !IsSpace(s[at])
    ensures r == ElementAt(s, at)
  {
    hide BackslashAt, Collapsed, IsSpace, ElementAt;
    MarksAreNoSpace();
    var p, braces, quoted := at, 0, false;
    if s[p] == '{' {
      braces, p := 1, p + 1;
    } else if s[p] == '"' {
      quoted, p := true, p + 1;
    }
    var start, literal := p, true;
    var size: nat;
    while true
      invariant start <= p <= |s| && braces >= 0 && start == if s[at] == '{' || s[at] == '"' then at + 1 else at
      invariant (s[at] == '{') == (braces > 0) && (s[at] == '"') == quoted
      invariant s[at] == '{' ==> CloseBrace(s, start, 1) == CloseBrace(s, p, braces) && literal
      invariant s[at] == '"' ==> CloseQuote(s, start) == CloseQuote(s, p)
      invariant s[at] != '{' && s[at] != '"' ==> BareEnd(s, start) == BareEnd(s, p)
      invariant s[at] != '{' && literal ==> forall k :: start <= k < p ==> s[k] != BACKSLASH
      decreases |s| - p
    {
      if p >= |s| {
        if braces != 0 { BracedIs(s, at, None); return Err(UnmatchedBrace); }
        if quoted { QuotedIs(s, at, None); return Err(UnmatchedQuote); }
        BareIs(s, at, p);
        size := p - start;
        break;
      }
      var c := s[p];
      if c == '{' && braces != 0 {
        braces := braces + 1;
      } else if c == '}' && braces > 1 {
        braces := braces - 1;
      } else if c == '}' && braces == 1 {
        BracedIs(s, at, Some(p));
        size := p - start;
        p := p + 1;
        if p >= |s| || IsSpace(s[p]) { break; }
        return Err(JunkAfterBraces(p));
      } else if c == BACKSLASH {
        if braces == 0 { literal := false; }
        p := BackslashAt(s, p).next - 1;
      } else if c == '"' && quoted {
        QuotedIs(s, at, Some(p));
        size := p - start;
        p := p + 1;
        if p >= |s| || IsSpace(s[p]) { break; }
        return Err(JunkAfterQuotes(p));
      } else if IsSpace(c) && braces == 0 && !quoted {
        BareIs(s, at, p);
        size := p - start;
        break;
      }
      p := p + 1;
    }
    var text := s[start..start + size];
    if literal {
      if s[at] != '{' { PlainText(s, start, start + size); }
      return Ok((text, p));
    }
    var element := Collapse(text);
    return Ok((element, p));
  }

  method Split(s: string) returns (r: Result<seq<string>, ListError>)
    ensures r == Elements(s, 0)
  {
    hide ElementAt, BackslashAt, Collapsed;
    var out: seq<string> := [];
    var p := 0;
    Prepends([], [], Elements(s, 0));
    while true
      invariant p <= |s| && Prepend(out, Elements(s, p)) == Elements(s, 0)
      decreases |s| - p
    {
      ghost var from := p;
      while p < |s| && IsSpace(s[p])
        invariant from <= p <= |s| && SkipSpace(s, p) == SkipSpace(s, from)
      {
        p := p + 1;
      }
      if p >= |s| {
        assert out + [] == out;
        return Ok(out);
      }
      var e := FindElement(s, p);
      if e.Err? { return Err(e.error); }
      p := e.value.1;
      Prepends(out, [e.value.0], Elements(s, p));
      out := out + [e.value.0];
      ghost var after := p;
      while p < |s| && IsSpace(s[p])
        invariant after <= p <= |s| && SkipSpace(s, p) == SkipSpace(s, after)
      {
        p := p + 1;
      }
      assert Elements(s, p) == Elements(s, after);
    }
  }
}
