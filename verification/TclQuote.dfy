/**
 Writing list elements so that splitting gives them back: verbatim, in braces, or
 with backslashes, whichever the element allows.
 */
module TclQuote {
  import opened Wrappers
  import opened TclList

  datatype Quoting =
    | Verbatim
    | Braces
    /** A backslash before every special character, braces included. */
    | Escaped
    /** A backslash before every special character except braces. */
    | Masked

  // ----- choosing the quoting, as a function

  /** A brace or a backslash. */
  predicate Paired(c: char) {
    c == '{' || c == '}' || c == BACKSLASH
  }

  /**
   Braces around the text from `i` on would be closed where it ends, `depth`
   braces being open at `i`.
   */
  predicate Balanced(x: string, i: nat, depth: nat)
    decreases |x| - i
  {
    if i >= |x| then depth == 0
    else if x[i] == '{' then Balanced(x, i + 1, depth + 1)
    else if x[i] == '}' then depth > 0 && Balanced(x, i + 1, depth - 1)
    else if x[i] == BACKSLASH then
      i + 1 < |x| && x[i + 1] != NEWLINE && Balanced(x, if Paired(x[i + 1]) then i + 2 else i + 1, depth)
    else Balanced(x, i + 1, depth)
  }

  predicate Delimits(c: char) {
    c == ']' || c == '"'
  }

  predicate Substitutes(c: char) {
    c == '[' || c == '$' || c == ';' || c == BACKSLASH || IsSpace(c)
  }

  predicate AnyDelimits(x: string) {
    exists k | 0 <= k < |x| :: Delimits(x[k])
  }

  predicate AnySubstitutes(x: string) {
    exists k | 0 <= k < |x| :: Substitutes(x[k])
  }

  function QuotingOf(x: string, hash: bool): Quoting {
    if x == "" then Braces
    else if !Balanced(x, 0, 0) then Escaped
    else
      var lead := x[0] == '{' || x[0] == '"';
      if !lead && !AnyDelimits(x) && !AnySubstitutes(x) then Verbatim
      else if AnyDelimits(x) && !lead && !AnySubstitutes(x) && !(hash && x[0] == '#') then Masked
      else Braces
  }

  /** Choose the quoting in one pass. */
  method ChooseQuoting(x: string, hash: bool) returns (r: Quoting)
    ensures r == QuotingOf(x, hash)
  {
    if x == "" { return Braces; }
    var nesting: int := 0;
    var forbidNone, requireEscape, preferEscape := false, false, false;
    var preferBrace := hash && x[0] == '#';
    if x[0] == '{' || x[0] == '"' {
      forbidNone, preferBrace := true, true;
    }
    ghost var lead := x[0] == '{' || x[0] == '"';
    var i := 0;
    while i < |x|
      invariant requireEscape ==> !Balanced(x, 0, 0)
      invariant !requireEscape ==> i <= |x| && nesting >= 0 && Balanced(x, 0, 0) == Balanced(x, i, nesting)
      invariant !requireEscape ==> forbidNone == (lead || AnyDelimits(x[..i]) || AnySubstitutes(x[..i]))
      invariant !requireEscape ==> preferEscape == AnyDelimits(x[..i])
      invariant !requireEscape ==> preferBrace == ((hash && x[0] == '#') || lead || AnySubstitutes(x[..i]))
      decreases |x| - i
    {
      var c := x[i];
      if !requireEscape {
        OneMore(x, i);
        if i + 1 < |x| { OneMore(x, i + 1); }
      }
      if c == '{' {
        nesting := nesting + 1;
      } else if c == '}' {
        nesting := nesting - 1;
        if nesting < 0 { requireEscape := true; }
      } else if c == ']' || c == '"' {
        forbidNone, preferEscape := true, true;
      } else if c == '[' || c == '$' || c == ';' {
        forbidNone, preferBrace := true, true;
      } else if c == BACKSLASH {
        if i + 1 >= |x| || x[i + 1] == NEWLINE {
          requireEscape := true;
          i := i + 2;
          continue;
        }
        if Paired(x[i + 1]) { i := i + 1; }
        forbidNone, preferBrace := true, true;
      } else if IsSpace(c) {
        forbidNone, preferBrace := true, true;
      }
      i := i + 1;
    }
    if nesting > 0 { requireEscape := true; }
    if !requireEscape { assert x[..i] == x; }
    if requireEscape { return Escaped; }
    if !forbidNone { return Verbatim; }
    if preferEscape && !preferBrace { return Masked; }
    return Braces;
  }

  lemma OneMore(x: string, i: nat)
    requires i < |x|
    ensures AnyDelimits(x[..i + 1]) <==> AnyDelimits(x[..i]) || Delimits(x[i])
    ensures AnySubstitutes(x[..i + 1]) <==> AnySubstitutes(x[..i]) || Substitutes(x[i])
  {
    var a, b := x[..i], x[..i + 1];
    assert b[i] == x[i];
    assert forall k :: 0 <= k < i ==> a[k] == b[k];
  }

  // ----- writing an element, as a function

  function EscapeChar(c: char, braces: bool): string {
    if c == ']' || c == '[' || c == '$' || c == ';' || c == ' ' || c == BACKSLASH || c == '"' then [BACKSLASH, c]
    else if c == '{' || c == '}' then (if braces then [BACKSLASH, c] else [c])
    else if c == FORM_FEED then "\\f"
    else if c == NEWLINE then "\\n"
    else if c == RETURN then "\\r"
    else if c == TAB then "\\t"
    else if c == VERTICAL_TAB then "\\v"
    else [c]
  }

  function EscapeAll(x: string, braces: bool): string {
    if x == "" then "" else EscapeChar(x[0], braces) + EscapeAll(x[1..], braces)
  }

  function Quote(x: string, hash: bool): string {
    if x == "" then "{}"
    else
      var mode := QuotingOf(x, hash);
      if hash && x[0] == '#' then (if mode == Escaped then "\\#" + EscapeAll(x[1..], true) else "{" + x + "}")
      else
        match mode
        case Verbatim => x
        case Braces => "{" + x + "}"
        case Escaped => EscapeAll(x, true)
        case Masked => EscapeAll(x, false)
  }

  function Tail(xs: seq<string>): string {
    if xs == [] then "" else " " + Quote(xs[0], false) + Tail(xs[1..])
  }

  /** A list of elements, as text. */
  function Joined(xs: seq<string>): string {
    if xs == [] then "" else Quote(xs[0], true) + Tail(xs[1..])
  }

  // ----- writing, as the program does it

  method QuoteElement(x: string, hash: bool) returns (out: string)
    ensures out == Quote(x, hash)
  {
    hide EscapeChar, EscapeAll, QuotingOf;
    if x == "" { return "{}"; }
    var mode := ChooseQuoting(x, hash);
    out := "";
    var rest := x;
    if hash && x[0] == '#' {
      if mode == Escaped {
        out := "\\#";
        rest := x[1..];
      } else {
        mode := Braces;
      }
    }
    match mode
    case Verbatim => out := out + rest;
    case Braces => out := out + "{" + rest + "}";
    case _ => out := EscapeInto(out, rest, mode == Escaped);
  }

  /** Write a text after what has been written, with a backslash before each special character. */
  method EscapeInto(before: string, rest: string, braces: bool) returns (out: string)
    ensures out == before + EscapeAll(rest, braces)
  {
    hide EscapeChar, EscapeAll;
    out := before;
    assert rest[0..] == rest;
    for k := 0 to |rest|
      invariant out + EscapeAll(rest[k..], braces) == before + EscapeAll(rest, braces)
    {
      var e := EscapeChar(rest[k], braces);
      OneMoreEscaped(out, rest, k, braces);
      out := out + e;
    }
    NothingRead(rest[|rest|..], braces, "");
    assert out + "" == out;
  }

  lemma OneMoreEscaped(out: string, rest: string, k: nat, braces: bool)
    requires k < |rest|
    ensures out + EscapeChar(rest[k], braces) + EscapeAll(rest[k + 1..], braces) == out + EscapeAll(rest[k..], braces)
  {
    hide EscapeChar, EscapeAll;
    assert rest[k..][0] == rest[k] && rest[k..][1..] == rest[k + 1..];
    EscapeAllFront(rest[k..], braces);
    AppendTwo(out, EscapeChar(rest[k], braces), EscapeAll(rest[k + 1..], braces));
  }

  lemma AppendTwo(a: string, b: string, c: string)
    ensures a + b + c == a + (b + c)
  {
  }

  method Join(xs: seq<string>) returns (out: string)
    ensures out == Joined(xs)
  {
    hide Quote, Joined, Tail;
    out := "";
    for k := 0 to |xs|
      invariant if k == 0 then out == "" else out + Tail(xs[k..]) == Joined(xs)
    {
      ghost var before := out;
      if k > 0 { out := out + " "; }
      var e := QuoteElement(xs[k], k == 0);
      out := out + e;
      if k == 0 {
        JoinedFront(xs, e);
        assert out == e;
      } else {
        TailFront(xs, k, before, e);
      }
    }
    if xs == [] { NothingJoined(xs); } else { NoTail(xs[|xs|..]); }
    assert out + "" == out;
  }

  lemma JoinedFront(xs: seq<string>, e: string)
    requires xs != [] && e == Quote(xs[0], true)
    ensures Joined(xs) == e + Tail(xs[1..])
  {
    hide Quote, Tail;
  }

  lemma TailFront(xs: seq<string>, k: nat, before: string, e: string)
    requires k < |xs| && e == Quote(xs[k], false)
    ensures before + " " + e + Tail(xs[k + 1..]) == before + Tail(xs[k..])
  {
    hide Quote;
    assert xs[k..][0] == xs[k] && xs[k..][1..] == xs[k + 1..];
    var t := Tail(xs[k + 1..]);
    assert Tail(xs[k..]) == " " + e + t;
    hide Tail;
    assert before + " " + e + t == before + (" " + e + t);
  }

  lemma NothingJoined(xs: seq<string>)
    requires xs == []
    ensures Joined(xs) == ""
  {
  }

  lemma NoTail(xs: seq<string>)
    requires xs == []
    ensures Tail(xs) == ""
  {
  }

  // ----- what is written reads back

  /** `y` is at `p` in `s`. */
  predicate Holds(s: string, p: nat, y: string) {
    p + |y| <= |s| && s[p..p + |y|] == y
  }

  lemma HoldsParts(s: string, p: nat, a: string, b: string)
    ensures Holds(s, p, a + b) <==> Holds(s, p, a) && Holds(s, p + |a|, b)
  {
    if Holds(s, p, a + b) {
      assert s[p..p + |a|] == (a + b)[..|a|] && s[p + |a|..p + |a| + |b|] == (a + b)[|a|..];
    }
    if Holds(s, p, a) && Holds(s, p + |a|, b) {
      assert s[p..p + |a| + |b|] == s[p..p + |a|] + s[p + |a|..p + |a| + |b|];
    }
  }

  lemma HoldsAt(s: string, p: nat, y: string, k: nat)
    requires Holds(s, p, y) && k < |y|
    ensures p + k < |s| && s[p + k] == y[k]
  {
    assert s[p..p + |y|][k] == s[p + k];
  }

  /** A sequence for one of the characters the writer escapes is two characters long. */
  lemma ShortEscape(s: string, p: nat, c: char, braces: bool)
    requires |EscapeChar(c, braces)| == 2 && Holds(s, p, EscapeChar(c, braces))
    ensures BackslashAt(s, p) == Escape([c], p + 2)
  {
    HoldsAt(s, p, EscapeChar(c, braces), 0);
    HoldsAt(s, p, EscapeChar(c, braces), 1);
  }

  /** A character is written as a sequence of two, or as itself when it is not special. */
  lemma EscapeShape(c: char, braces: bool)
    ensures
      var e := EscapeChar(c, braces);
      || (|e| == 2 && e[0] == BACKSLASH)
      || (e == [c] && !IsSpace(c) && c != BACKSLASH && c != '"' && (c == '{' ==> !braces))
  {
  }

  predicate EndsHere(s: string, p: nat) {
    p == |s| || (p < |s| && IsSpace(s[p]))
  }

  lemma EscapeAllFront(y: string, braces: bool)
    requires y != ""
    ensures EscapeAll(y, braces) == EscapeChar(y[0], braces) + EscapeAll(y[1..], braces)
  {
    hide EscapeChar;
  }

  /** The reader passes one character as it is written, and has that character. */
  lemma EscapeStep(s: string, p: nat, c: char, braces: bool, q: nat)
    requires Holds(s, p, EscapeChar(c, braces)) && q == p + |EscapeChar(c, braces)|
    ensures p < q <= |s| && BareEnd(s, p) == BareEnd(s, q) && Collapsed(s, p) == [c] + Collapsed(s, q)
  {
    EscapeShape(c, braces);
    if |EscapeChar(c, braces)| == 2 { ShortEscape(s, p, c, braces); }
    HoldsAt(s, p, EscapeChar(c, braces), 0);
    hide EscapeChar, BackslashAt, IsSpace;
  }

  /** The first character of an escaped text, and the rest. */
  lemma EscapedParts(s: string, p: nat, y: string, braces: bool, e: string, rest: string)
    requires y != "" && e == EscapeChar(y[0], braces) && rest == EscapeAll(y[1..], braces)
    requires Holds(s, p, EscapeAll(y, braces))
    ensures Holds(s, p, e) && Holds(s, p + |e|, rest) && |EscapeAll(y, braces)| == |e| + |rest|
  {
    EscapeAllFront(y, braces);
    hide EscapeChar, EscapeAll, Holds;
    HoldsParts(s, p, e, rest);
  }

  lemma Rejoin(y: string, t: string)
    requires y != ""
    ensures [y[0]] + (y[1..] + t) == y + t
  {
  }

  lemma NothingRead(y: string, braces: bool, t: string)
    requires y == ""
    ensures EscapeAll(y, braces) == y && y + t == t
  {
  }

  lemma NoneHeld(s: string, p: nat, y: string, braces: bool)
    requires y == "" && Holds(s, p, EscapeAll(y, braces))
    ensures p + |EscapeAll(y, braces)| == p <= |s|
  {
  }

  /** The reader passes an escaped text, and has the text. */
  lemma {:induction false} EscapedReads(s: string, p: nat, y: string, braces: bool, q: nat)
    requires Holds(s, p, EscapeAll(y, braces)) && q == p + |EscapeAll(y, braces)|
    ensures q <= |s| && BareEnd(s, p) == BareEnd(s, q) && Collapsed(s, p) == y + Collapsed(s, q)
    decreases |y|
  {
    hide *;
    if y == "" {
      NoneHeld(s, p, y, braces);
      NothingRead(y, braces, Collapsed(s, p));
    } else {
      var e, rest := EscapeChar(y[0], braces), EscapeAll(y[1..], braces);
      EscapedParts(s, p, y, braces, e, rest);
      EscapeStep(s, p, y[0], braces, p + |e|);
      EscapedReads(s, p + |e|, y[1..], braces, q);
      Rejoin(y, Collapsed(s, q));
    }
  }

  lemma EscapedRun(s: string, p: nat, y: string, braces: bool)
    requires Holds(s, p, EscapeAll(y, braces)) && EndsHere(s, p + |EscapeAll(y, braces)|)
    ensures BareEnd(s, p) == p + |EscapeAll(y, braces)|
  {
    hide EscapeAll, Collapsed, Holds, BackslashAt, IsSpace;
    EscapedReads(s, p, y, braces, p + |EscapeAll(y, braces)|);
  }

  lemma EscapedCollapses(s: string, p: nat, y: string, braces: bool)
    requires p <= |s| && s[p..] == EscapeAll(y, braces)
    ensures Collapsed(s, p) == y
  {
    assert Holds(s, p, EscapeAll(y, braces));
    hide EscapeAll, BareEnd, Holds, BackslashAt;
    EscapedReads(s, p, y, braces, |s|);
    assert y + "" == y;
  }

  /** A text with nothing special in it is written as it is. */
  lemma {:induction false} NothingToEscape(x: string)
    requires !AnyDelimits(x) && !AnySubstitutes(x)
    ensures EscapeAll(x, false) == x
    decreases |x|
  {
    if x != "" {
      assert !Delimits(x[0]) && !Substitutes(x[0]);
      assert forall k :: 0 <= k < |x| - 1 ==> x[1..][k] == x[k + 1];
      assert !AnyDelimits(x[1..]) && !AnySubstitutes(x[1..]);
      NothingToEscape(x[1..]);
    }
  }

  lemma {:induction false} DigitsBalance(x: string, i: nat, k: nat, depth: nat)
    requires i <= k <= |x| && forall t :: i <= t < k ==> DigitValue(x[t], 16).Some?
    ensures Balanced(x, i, depth) == Balanced(x, k, depth)
    decreases k - i
  {
    if i < k { DigitsBalance(x, i + 1, k, depth); }
  }

  lemma CloseIsNoDigit()
    ensures DigitValue('}', 16).None?
  {
  }

  /** The brace after a balanced text is the one that closes it. */
  lemma {:induction false} BraceCloses(s: string, p: nat, x: string, i: nat, depth: nat)
    requires i <= |x| && Balanced(x, i, depth)
    requires Holds(s, p, x[i..]) && p + |x| - i < |s| && s[p + |x| - i] == '}'
    ensures CloseBrace(s, p, depth + 1) == Some(p + |x| - i)
    decreases |x| - i
  {
    hide BackslashAt, DigitValue;
    if i < |x| {
      assert forall t :: i <= t < |x| ==> s[p + t - i] == x[t] by {
        forall t | i <= t < |x| ensures s[p + t - i] == x[t] { HoldsAt(s, p, x[i..], t - i); }
      }
      var k := i + 1;
      if x[i] == BACKSLASH {
        var q := BackslashAt(s, p).next;
        EscapeSwallows(s, p);
        if !Paired(x[i + 1]) {
          CloseIsNoDigit();
          DigitsBalance(x, i + 2, i + (q - p), depth);
        }
        k := i + (q - p);
      }
      assert s[p + k - i..p + |x| - i] == x[k..];
      BraceCloses(s, p + k - i, x, k, if x[i] == '{' then depth + 1 else if x[i] == '}' then depth - 1 else depth);
    }
  }

  /** An element that was written reads back as it was, wherever it stands. */
  lemma ElementReadsBack(s: string, p: nat, x: string, hash: bool)
    requires Holds(s, p, Quote(x, hash)) && EndsHere(s, p + |Quote(x, hash)|)
    ensures p < |s| && !IsSpace(s[p]) && ElementAt(s, p) == Ok((x, p + |Quote(x, hash)|))
  {
    hide EscapeAll, Balanced, Holds, EndsHere, ElementAt, AnyDelimits, AnySubstitutes;
    var mode := QuotingOf(x, hash);
    if x == "" {
      assert Balanced("", 0, 0) by { EmptyIsBalanced(); }
      assert "{" + x + "}" == "{}";
      BracedReadsBack(s, p, x);
    } else if hash && x[0] == '#' && mode == Escaped {
      HashReadsBack(s, p, x, EscapeAll(x[1..], true), Quote(x, hash));
    } else if (hash && x[0] == '#') || mode == Braces {
      assert |"{" + x + "}"| == |x| + 2;
      BracedReadsBack(s, p, x);
    } else {
      if mode == Verbatim { NothingToEscape(x); }
      EscapedReadsBack(s, p, x, Quote(x, hash), mode == Escaped);
    }
  }

  lemma EmptyIsBalanced()
    ensures Balanced("", 0, 0)
  {
  }

  lemma BracedReadsBack(s: string, p: nat, x: string)
    requires Balanced(x, 0, 0) && Holds(s, p, "{" + x + "}") && EndsHere(s, p + |x| + 2)
    ensures p < |s| && !IsSpace(s[p]) && ElementAt(s, p) == Ok((x, p + |x| + 2))
  {
    var close := p + |x| + 1;
    InBraces(s, p, x);
    hide Balanced, BackslashAt;
    BraceCloses(s, p + 1, x, 0, 0);
    hide CloseBrace, IsSpace;
    BraceIsNoSpace();
  }

  lemma InBraces(s: string, p: nat, x: string)
    requires Holds(s, p, "{" + x + "}")
    ensures p + |x| + 1 < |s| && s[p] == '{' && s[p + |x| + 1] == '}' && Holds(s, p + 1, x)
    ensures x[0..] == x && s[p + 1..p + |x| + 1] == x
  {
    HoldsParts(s, p, "{" + x, "}");
    HoldsParts(s, p, "{", x);
    HoldsAt(s, p, "{", 0);
    HoldsAt(s, p + |x| + 1, "}", 0);
  }

  lemma BraceIsNoSpace()
    ensures !IsSpace('{')
  {
  }

  lemma HashReadsBack(s: string, p: nat, x: string, rest: string, y: string)
    requires x != "" && x[0] == '#' && rest == EscapeAll(x[1..], true) && y == "\\#" + rest
    requires Holds(s, p, y) && EndsHere(s, p + |y|)
    ensures p < |s| && !IsSpace(s[p]) && ElementAt(s, p) == Ok((x, p + |y|))
  {
    hide EscapeAll, EndsHere, ElementAt, BareEnd, Collapsed, BackslashAt, IsSpace;
    HoldsAt(s, p, y, 0);
    HoldsAt(s, p, y, 1);
    HoldsParts(s, p, "\\#", rest);
    EscapedRun(s, p + 2, x[1..], true);
    assert y[2..] == rest;
    EscapedCollapses(y, 2, x[1..], true);
    assert x == "#" + x[1..];
    HashEscape(s, p);
    HashEscape(y, 0);
    BackslashIsPlain();
    hide Holds;
    BareElement(s, p, y, x);
  }

  lemma HashEscape(s: string, p: nat)
    requires p + 1 < |s| && s[p] == BACKSLASH && s[p + 1] == '#'
    ensures BackslashAt(s, p) == Escape("#", p + 2)
    ensures BareEnd(s, p) == BareEnd(s, p + 2) && Collapsed(s, p) == "#" + Collapsed(s, p + 2)
  {
    BackslashIsPlain();
  }

  lemma EscapedReadsBack(s: string, p: nat, x: string, y: string, braces: bool)
    requires x != "" && (x[0] == '{' ==> braces) && y == EscapeAll(x, braces)
    requires Holds(s, p, y) && EndsHere(s, p + |y|)
    ensures p < |s| && !IsSpace(s[p]) && ElementAt(s, p) == Ok((x, p + |y|))
  {
    EscapedStart(x, braces);
    hide *;
    EscapedRun(s, p, x, braces);
    assert y[0..] == y;
    EscapedCollapses(y, 0, x, braces);
    assert Collapsed(y, 0) == x && BareEnd(s, p) == p + |y|;
    BareElement(s, p, y, x);
  }

  lemma EscapedStart(x: string, braces: bool)
    requires x != "" && (x[0] == '{' ==> braces)
    ensures var y := EscapeAll(x, braces); y != "" && !IsSpace(y[0]) && y[0] != '{' && y[0] != '"'
  {
    EscapeShape(x[0], braces);
    hide EscapeChar, IsSpace;
    assert EscapeAll(x, braces)[0] == EscapeChar(x[0], braces)[0];
    BackslashIsPlain();
  }

  lemma BackslashIsPlain()
    ensures !IsSpace(BACKSLASH)
  {
  }

  /** An element that starts neither with a brace nor with a quote. */
  lemma BareElement(s: string, p: nat, y: string, x: string)
    requires y != "" && Holds(s, p, y) && !IsSpace(y[0]) && y[0] != '{' && y[0] != '"'
    requires BareEnd(s, p) == p + |y| && Collapsed(y, 0) == x
    ensures p < |s| && !IsSpace(s[p]) && ElementAt(s, p) == Ok((x, p + |y|))
  {
    hide IsSpace, Collapsed, BareEnd;
    HoldsAt(s, p, y, 0);
  }

  lemma {:induction false} TailReadsBack(s: string, p: nat, xs: seq<string>)
    requires p <= |s| && s[p..] == Tail(xs)
    ensures Elements(s, p) == Ok(xs) && EndsHere(s, p)
    decreases |xs|, 0
  {
    hide ElementAt, Quote, Holds;
    if xs != [] {
      var y, rest := Quote(xs[0], false), Tail(xs[1..]);
      assert Tail(xs) == " " + (y + rest);
      assert s[p] == Tail(xs)[0] == ' ';
      assert s[p + 1..] == Tail(xs)[1..] == y + rest;
      AfterElement(s, p + 1, xs[0], false, xs[1..]);
      assert SkipSpace(s, p) == p + 1;
      assert Elements(s, p) == Elements(s, p + 1);
      assert xs == [xs[0]] + xs[1..];
    }
  }

  /** An element and the ones after it. */
  lemma {:induction false} AfterElement(s: string, p: nat, x: string, hash: bool, xs: seq<string>)
    requires p <= |s| && s[p..] == Quote(x, hash) + Tail(xs)
    ensures p < |s| && !IsSpace(s[p]) && Elements(s, p) == Ok([x] + xs)
    decreases |xs|, 1
  {
    hide Quote, Tail, ElementAt;
    var y := Quote(x, hash);
    var q := p + |y|;
    assert s[p..q] == s[p..][..|y|] == y;
    assert s[q..] == s[p..][|y|..] == Tail(xs);
    TailReadsBack(s, q, xs);
    ElementReadsBack(s, p, x, hash);
  }

  /** Splitting a joined list gives back its elements. */
  lemma SplitOfJoin(xs: seq<string>)
    ensures Elements(Joined(xs), 0) == Ok(xs)
  {
    hide Quote, ElementAt, Tail;
    if xs != [] {
      var s := Joined(xs);
      assert s[0..] == s;
      AfterElement(s, 0, xs[0], true, xs[1..]);
      assert xs == [xs[0]] + xs[1..];
    }
  }

  /** Different lists are written differently. */
  lemma JoinIsInjective(xs: seq<string>, ys: seq<string>)
    ensures Joined(xs) == Joined(ys) ==> xs == ys
  {
    SplitOfJoin(xs);
    SplitOfJoin(ys);
  }

  /** A joined list never begins like a comment. */
  lemma JoinIsNoComment(xs: seq<string>)
    ensures Joined(xs) != "" ==> Joined(xs)[0] != '#'
  {
    if xs != [] && xs[0] != "" {
      var x := xs[0];
      if x[0] != '#' {
        assert EscapeAll(x, true)[0] == EscapeChar(x[0], true)[0];
        assert EscapeAll(x, false)[0] == EscapeChar(x[0], false)[0];
      }
    }
  }
}
