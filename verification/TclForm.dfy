/**
 Which form an element is written in, said from what a reader makes of it: bare
 when that is safe, in braces when braces read back, and with backslashes only
 when they do not, or when a closing bracket or a quote is all there is to hide.
 */
module TclForm {
  import opened Wrappers
  import opened TclList
  import opened TclQuote

  /** A character the parser of scripts acts on. */
  predicate Active(c: char) {
    c in "[]$;\"\\" || IsSpace(c)
  }

  predicate AnyActive(x: string) {
    exists k | 0 <= k < |x| :: Active(x[k])
  }

  /** A backslash before a newline, the text being read a backslash and the character after it at a time. */
  predicate Continued(x: string, i: nat)
    decreases |x| - i
  {
    i < |x| &&
    if x[i] == BACKSLASH then i + 1 < |x| && (x[i + 1] == NEWLINE || Continued(x, i + 2)) else Continued(x, i + 1)
  }

  /** The text reads as one element that is `x`. */
  predicate ReadsAs(text: string, x: string) {
    Elements(text, 0) == Ok([x])
  }

  function Braced(x: string): string {
    "{" + x + "}"
  }

  // ----- braces read back exactly around balanced text

  lemma {:induction false} BalancedGoesOn(x: string, i: nat, depth: nat)
    requires i <= |x| && Balanced(x, i, depth)
    ensures !Continued(x, i)
    decreases |x| - i
  {
    if i < |x| {
      if x[i] == BACKSLASH {
        if Paired(x[i + 1]) {
          BalancedGoesOn(x, i + 2, depth);
        } else {
          assert Balanced(x, i + 1, depth) == Balanced(x, i + 2, depth);
          BalancedGoesOn(x, i + 2, depth);
        }
      } else {
        BalancedGoesOn(x, i + 1, if x[i] == '{' then depth + 1 else if x[i] == '}' then depth - 1 else depth);
      }
    }
  }

  lemma {:induction false} DigitsGoOn(x: string, i: nat, k: nat)
    requires i <= k <= |x| && forall t :: i <= t < k ==> DigitValue(x[t], 16).Some?
    ensures Continued(x, i) == Continued(x, k)
    decreases k - i
  {
    if i < k { DigitsGoOn(x, i + 1, k); }
  }

  /** If the brace at the end of a text is the one that closes it, what is before it is balanced. */
  lemma {:induction false} ClosedIsBalanced(s: string, p: nat, x: string, i: nat, depth: nat)
    requires i <= |x| && !Continued(x, i)
    requires p + |x| - i + 1 == |s| && Holds(s, p, x[i..]) && s[p + |x| - i] == '}'
    requires CloseBrace(s, p, depth + 1) == Some(p + |x| - i)
    ensures Balanced(x, i, depth)
    decreases |x| - i
  {
    hide BackslashAt, DigitValue;
    if i < |x| {
      forall t | i <= t < |x| ensures s[p + t - i] == x[t] { HoldsAt(s, p, x[i..], t - i); }
      var k := i + 1;
      if x[i] == BACKSLASH {
        var q := BackslashAt(s, p).next;
        EscapeSwallows(s, p);
        if i + 1 == |x| { return; }
        if !Paired(x[i + 1]) {
          CloseIsNoDigit();
          DigitsBalance(x, i + 2, i + (q - p), depth);
          DigitsGoOn(x, i + 2, i + (q - p));
        }
        k := i + (q - p);
      }
      assert s[p + k - i..p + |x| - i] == x[k..];
      ClosedIsBalanced(s, p + k - i, x, k, if x[i] == '{' then depth + 1 else if x[i] == '}' then depth - 1 else depth);
    }
  }

  lemma OneElement(s: string, x: string)
    requires s != "" && !IsSpace(s[0])
    ensures ElementAt(s, 0) == Ok((x, |s|)) ==> ReadsAs(s, x)
    ensures ReadsAs(s, x) ==> ElementAt(s, 0).Ok? && ElementAt(s, 0).value.0 == x
  {
    hide ElementAt;
    var e := ElementAt(s, 0);
    assert Elements(s, 0) == if e.Err? then Err(e.error) else Prepend([e.value.0], Elements(s, e.value.1));
    if e == Ok((x, |s|)) {
      assert Elements(s, |s|) == Ok([]) && [x] + [] == [x];
    }
    if ReadsAs(s, x) {
      var rest := Elements(s, e.value.1).value;
      assert ([e.value.0] + rest)[0] == [x][0];
    }
  }

  /** In braces a text that goes over no line reads back exactly when its braces balance. */
  lemma BracesReadBack(x: string)
    ensures Balanced(x, 0, 0) ==> ReadsAs(Braced(x), x)
    ensures !Continued(x, 0) && ReadsAs(Braced(x), x) ==> Balanced(x, 0, 0)
  {
    hide Balanced, Continued, Elements;
    var s := Braced(x);
    BraceIsNoSpace();
    OneElement(s, x);
    InBraces(s, 0, x);
    if Balanced(x, 0, 0) { BracedReadsBack(s, 0, x); }
    if !Continued(x, 0) && ReadsAs(s, x) {
      var close := CloseBrace(s, 1, 1);
      assert s[1..close.value] == x;
      ClosedIsBalanced(s, 1, x, 0, 0);
    }
  }

  // ----- which form is taken

  lemma ActiveIs(x: string)
    ensures AnyActive(x) <==> AnyDelimits(x) || AnySubstitutes(x)
  {
    forall c ensures Active(c) <==> Delimits(c) || Substitutes(c) {
    }
  }

  lemma {:induction false} NotContinued(x: string, i: nat)
    requires i <= |x| && forall k | i <= k < |x| :: x[k] != BACKSLASH
    ensures !Continued(x, i)
    decreases |x| - i
  {
    if i < |x| { NotContinued(x, i + 1); }
  }

  /** Nothing is acted on but closing brackets, and quotes that do not begin the text. */
  ghost predicate OnlyClosers(x: string) {
    forall k | 0 <= k < |x| :: Active(x[k]) ==> x[k] == ']' || (x[k] == '"' && k > 0)
  }

  lemma OnlyDelimits(x: string)
    requires x != ""
    ensures OnlyClosers(x) <==> !AnySubstitutes(x) && x[0] != '"'
  {
    forall c ensures Active(c) <==> Delimits(c) || Substitutes(c) {
    }
    if OnlyClosers(x) {
      forall k | 0 <= k < |x| ensures !Substitutes(x[k]) {
        assert Active(x[k]) ==> x[k] == ']' || x[k] == '"';
      }
      assert Active(x[0]) ==> x[0] == ']';
    }
  }

  /** Bare, a text with nothing in it that is acted on reads as itself unless a brace begins it. */
  lemma BareReads(x: string)
    requires x != "" && !AnyActive(x)
    ensures ReadsAs(x, x) <==> x[0] != '{'
  {
    ActiveIs(x);
    assert !Active(x[0]);
    hide Active, AnyActive, AnyDelimits, AnySubstitutes, BackslashAt;
    OneElement(x, x);
    if x[0] != '{' {
      NothingToEscape(x);
      assert Holds(x, 0, x);
      EscapedReadsBack(x, 0, x, x, false);
    }
  }

  /**
   The form an element is given, by what each form would read as.  It is bare
   exactly when it reads as itself so and in braces, and nothing in it is acted on;
   it is written with backslashes, braces included, exactly when it does not read
   back in braces or goes over a line; it is written with backslashes, but for its
   braces, exactly when it reads back in braces but all that need hiding are closing
   brackets and quotes that do not begin it; and otherwise it is in braces.
   */
  lemma FormIsChosen(x: string, hash: bool)
    requires x != ""
    ensures QuotingOf(x, hash) == Verbatim <==> ReadsAs(x, x) && ReadsAs(Braced(x), x) && !AnyActive(x)
    ensures QuotingOf(x, hash) == Escaped <==> !ReadsAs(Braced(x), x) || Continued(x, 0)
    ensures QuotingOf(x, hash) == Masked <==>
      ReadsAs(Braced(x), x) && AnyActive(x) && OnlyClosers(x) && x[0] != '{' && !(hash && x[0] == '#')
  {
    BracesReadBack(x);
    ActiveIs(x);
    if Balanced(x, 0, 0) { BalancedGoesOn(x, 0, 0); }
    if !AnyActive(x) { BareReads(x); }
    if !AnySubstitutes(x) {
      assert forall k | 0 <= k < |x| :: x[k] != BACKSLASH;
      NotContinued(x, 0);
    }
    OnlyDelimits(x);
    hide Balanced, Continued, ReadsAs, AnyActive, AnyDelimits, AnySubstitutes;
  }

  // ----- what a form looks like

  /** A backslash is needed before it: it is acted on, or it is a brace and braces are to be hidden; or it is a letter for white space. */
  predicate Hides(c: char, braces: bool) {
    c in "[]$;\"\\ fnrtv#" || (braces && c in "{}")
  }

  /** From `i` on nothing is acted on outside backslash sequences, and every sequence hides something. */
  predicate Hidden(y: string, i: nat, braces: bool)
    decreases |y| - i
  {
    i < |y| ==>
      if y[i] == BACKSLASH then i + 1 < |y| && Hides(y[i + 1], braces) && Hidden(y, i + 2, braces)
      else !Active(y[i]) && (braces ==> y[i] !in "{}") && Hidden(y, i + 1, braces)
  }

  lemma {:induction false} HiddenAfter(a: string, b: string, i: nat, braces: bool)
    requires i <= |b|
    ensures Hidden(a + b, |a| + i, braces) == Hidden(b, i, braces)
    decreases |b| - i
  {
    if i < |b| {
      assert (a + b)[|a| + i] == b[i];
      if b[i] == BACKSLASH {
        if i + 1 < |b| {
          assert (a + b)[|a| + i + 1] == b[i + 1];
          HiddenAfter(a, b, i + 2, braces);
        }
      } else {
        HiddenAfter(a, b, i + 1, braces);
      }
    }
  }

  lemma {:induction false} EscapedIsHidden(x: string, braces: bool)
    ensures Hidden(EscapeAll(x, braces), 0, braces)
    decreases |x|
  {
    if x != "" {
      var e, rest := EscapeChar(x[0], braces), EscapeAll(x[1..], braces);
      EscapedIsHidden(x[1..], braces);
      HiddenAfter(e, rest, 0, braces);
      assert EscapeAll(x, braces) == e + rest;
      EscapeHides(x[0], braces);
      assert (e + rest)[0] == e[0];
      if |e| == 2 { assert (e + rest)[1] == e[1]; }
    }
  }

  lemma EscapeHides(c: char, braces: bool)
    ensures
      var e := EscapeChar(c, braces);
      || (|e| == 2 && e[0] == BACKSLASH && Hides(e[1], braces))
      || (|e| == 1 && e[0] != BACKSLASH && !Active(c) && e == [c] && (braces ==> c !in "{}"))
  {
  }

  /**
   The text of an element, by what its forms would read as.  `hash` is set for the
   first of a list, where a hash sign would begin a comment.
   */
  lemma TextIsChosen(x: string, hash: bool)
    requires x != ""
    ensures
      var (y, comment) := (Quote(x, hash), hash && x[0] == '#');
      if !ReadsAs(Braced(x), x) || Continued(x, 0) then Hidden(y, 0, true)
      else if comment then y == Braced(x)
      else if ReadsAs(x, x) && !AnyActive(x) then y == x
      else if AnyActive(x) && OnlyClosers(x) && x[0] != '{' then Hidden(y, 0, false)
      else y == Braced(x)
  {
    FormIsChosen(x, hash);
    EscapedIsHidden(x, true);
    EscapedIsHidden(x, false);
    EscapedIsHidden(x[1..], true);
    hide ReadsAs, Continued, AnyActive, OnlyClosers, QuotingOf, EscapeAll;
    var rest := EscapeAll(x[1..], true);
    HiddenAfter("\\#", rest, 0, true);
    assert ("\\#" + rest)[0] == BACKSLASH && ("\\#" + rest)[1] == '#';
  }

  // ----- reading each form

  /** White space around a list is not part of it. */
  lemma {:induction false} SpaceIsSkipped(s: string, p: nat)
    requires p < |s| && IsSpace(s[p])
    ensures Elements(s, p) == Elements(s, p + 1)
  {
    hide ElementAt;
  }

  /** An element in braces is what is in them, and must be followed by white space. */
  lemma BracedElement(s: string, p: nat, x: string)
    requires Balanced(x, 0, 0) && Holds(s, p, Braced(x))
    ensures
      var q := p + |x| + 2;
      p < |s| && !IsSpace(s[p]) && ElementAt(s, p) == if q < |s| && !IsSpace(s[q]) then Err(JunkAfterBraces(q)) else Ok((x, q))
  {
    InBraces(s, p, x);
    BraceIsNoSpace();
    hide Balanced, BackslashAt;
    BraceCloses(s, p + 1, x, 0, 0);
  }

  /** So is an element in quotes, when it has neither quotes nor backslashes of its own. */
  lemma QuotedElement(s: string, p: nat, x: string)
    requires '"' !in x && BACKSLASH !in x && Holds(s, p, "\"" + x + "\"")
    ensures
      var q := p + |x| + 2;
      p < |s| && !IsSpace(s[p]) && ElementAt(s, p) == if q < |s| && !IsSpace(s[q]) then Err(JunkAfterQuotes(q)) else Ok((x, q))
  {
    HoldsParts(s, p, "\"" + x, "\"");
    HoldsParts(s, p, "\"", x);
    HoldsAt(s, p, "\"", 0);
    HoldsAt(s, p + |x| + 1, "\"", 0);
    QuoteCloses(s, p + 1, x, 0);
    assert s[p + 1..p + |x| + 1] == x && x[0..] == x;
    NothingToCollapse(x, 0);
  }

  lemma {:induction false} QuoteCloses(s: string, p: nat, x: string, i: nat)
    requires i <= |x| && '"' !in x && BACKSLASH !in x && Holds(s, p, x)
    ensures p + |x| < |s| && s[p + |x|] == '"' ==> CloseQuote(s, p + i) == Some(p + |x|)
    ensures p + |x| == |s| ==> CloseQuote(s, p + i) == None
    decreases |x| - i
  {
    if i < |x| {
      HoldsAt(s, p, x, i);
      assert x[i] in x;
      QuoteCloses(s, p, x, i + 1);
    }
  }

  /** Nothing closes what is left open at the end. */
  lemma LeftOpen(x: string)
    requires '"' !in x && BACKSLASH !in x && '}' !in x
    ensures Elements("\"" + x, 0) == Err(UnmatchedQuote)
    ensures Elements("{" + x, 0) == Err(UnmatchedBrace)
  {
    var q, b := "\"" + x, "{" + x;
    assert Holds(q, 1, x) && Holds(b, 1, x);
    QuoteCloses(q, 1, x, 0);
    BraceStaysOpen(b, 1, 1);
    assert SkipSpace(q, 0) == 0 && SkipSpace(b, 0) == 0;
  }

  lemma {:induction false} BraceStaysOpen(s: string, p: nat, depth: nat)
    requires p <= |s| && depth > 0 && forall k | p <= k < |s| :: s[k] != '}' && s[k] != BACKSLASH
    ensures CloseBrace(s, p, depth) == None
    decreases |s| - p
  {
    if p < |s| { BraceStaysOpen(s, p + 1, if s[p] == '{' then depth + 1 else depth); }
  }
}
