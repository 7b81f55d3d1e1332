/**
 What cJSON_Minify does to the tree the parser reads. A string literal that ends in an escaped
 backslash puts the minifier out of step: it takes the closing quote for an escaped one, and
 reads the next literal as if it were outside strings. The tree is kept as long as nothing gets
 lost in a literal read that way.
 */
module CJsonMinifyTree {
  import opened Text
  import opened Digits
  import opened CJsonValue
  import opened CJsonString
  import opened CJsonNumber
  import opened CJsonParse
  import opened CJsonMinify

  // ---- literals read in step: both find the same opening quote ----

  /** The head of a string body, one escape or one plain byte. */
  function HeadLength(s: Bytes): nat {
    if s != [] && s[0] == BACKSLASH then 2 else 1
  }

  lemma CloseUnfold(s: Bytes)
    requires s != [] && ClosingQuote(s).Some?
    ensures s[0] == QUOTE ==> ClosingQuote(s) == Some(0)
    ensures s[0] != QUOTE ==>
      HeadLength(s) <= |s| && ClosingQuote(s) == Shift(HeadLength(s), ClosingQuote(s[HeadLength(s)..]))
  {
  }

  lemma PrefixParts(s: Bytes, k: nat, n: nat)
    requires 0 < n <= k < |s| && NUL !in s[..k]
    ensures NUL !in s[n..][..k - n] && s[0] != NUL && s[n - 1] != NUL
  {
    assert s[..k][0] == s[0] && s[..k][n - 1] == s[n - 1];
    assert s[n..][..k - n] == s[..k][n..];
  }

  lemma ClosingStep(s: Bytes)
    requires Terminated(s) && ClosingQuote(s).Some? && s[0] != QUOTE && NUL !in s[..ClosingQuote(s).value]
    ensures var n, k := HeadLength(s), ClosingQuote(s).value;
      && n <= k && k + 1 < |s| && Terminated(s[n..]) && ClosingQuote(s[n..]) == Some(k - n)
      && NUL !in s[n..][..k - n] && s[0] != NUL && s[n - 1] != NUL && (s[n] == QUOTE ==> k == n)
  {
    hide ClosingQuote, HeadLength, Terminated;
    var n, k := HeadLength(s), ClosingQuote(s).value;
    CloseUnfold(s);
    assert n > 0 by {
      HeadPositive(s);
    }
    TerminatedNext(s, k);
    TerminatedSuffix(s, n);
    CloseUnfold(s[n..]);
    PrefixParts(s, k, n);
  }

  lemma HeadPositive(s: Bytes)
    ensures HeadLength(s) > 0
  {
  }

  lemma FirstTwo(s: Bytes)
    requires |s| >= 2
    ensures s[0..] == s && s[..2] == [s[0]] + [s[1]]
  {
  }

  lemma OtherEscapeKept(s: Bytes)
    requires Terminated(s) && 2 < |s| && s[0] == BACKSLASH && s[1] != NUL && s[1] != QUOTE
    requires s[1] == BACKSLASH ==> s[2] != QUOTE
    ensures Terminated(s[2..]) && MinifiedString(s) == [s[0]] + ([s[1]] + MinifiedString(s[2..]))
  {
    hide *;
    NotQuoteOrNul();
    TerminatedNext(s, 0);
    TerminatedNext(s, 1);
    FirstTwo(s);
    StringStep(s, 0);
    StringStep(s, 1);
  }

  lemma NotQuoteOrNul()
    ensures BACKSLASH != QUOTE && BACKSLASH != NUL
  {
  }

  lemma EscapeKept(s: Bytes)
    requires Terminated(s) && 2 < |s| && s[0] == BACKSLASH && s[1] != NUL
    requires s[1] == BACKSLASH ==> s[2] != QUOTE
    ensures Terminated(s[2..]) && MinifiedString(s) == s[..2] + MinifiedString(s[2..])
  {
    hide Minified, MinifiedString, Terminated;
    TerminatedNext(s, 1);
    FirstTwo(s);
    if s[1] != QUOTE {
      OtherEscapeKept(s);
    } else {
      StringQuote(s);
    }
    Carry2([s[0]], [s[1]], MinifiedString(s[2..]));
  }

  lemma StringQuote(s: Bytes)
    requires Terminated(s) && s[0] == BACKSLASH && s[1] == QUOTE
    ensures MinifiedString(s) == [s[0]] + ([s[1]] + MinifiedString(s[2..]))
  {
    hide Minified;
    Carry2([s[0]], [s[1]], MinifiedString(s[2..]));
    assert [s[0]] + [s[1]] == [BACKSLASH, QUOTE];
  }

  lemma HeadCases(s: Bytes)
    ensures HeadLength(s) == if s != [] && s[0] == BACKSLASH then 2 else 1
  {
  }

  lemma PlainByteKept(s: Bytes)
    requires Terminated(s) && s[0] != QUOTE && s[0] != NUL && s[0] != BACKSLASH
    ensures Terminated(s[1..]) && MinifiedString(s) == s[..1] + MinifiedString(s[1..])
  {
    hide Minified;
    assert s[..1] == [s[0]];
  }

  lemma HeadKept(s: Bytes)
    requires Terminated(s) && HeadLength(s) < |s| && s[0] != QUOTE && s[0] != NUL && s[HeadLength(s) - 1] != NUL
    requires s[0] == BACKSLASH && s[1] == BACKSLASH ==> s[2] != QUOTE
    ensures Terminated(s[HeadLength(s)..])
    ensures MinifiedString(s) == s[..HeadLength(s)] + MinifiedString(s[HeadLength(s)..])
  {
    hide *;
    HeadCases(s);
    if s[0] == BACKSLASH {
      EscapeKept(s);
    } else {
      PlainByteKept(s);
    }
  }

  lemma EmptyStringKept(s: Bytes)
    requires Terminated(s) && s[0] == QUOTE
    ensures ClosingQuote(s) == Some(0) && MinifiedString(s) == s[..1] + Minified(s[1..])
  {
    assert s[..1] == [QUOTE];
  }

  lemma BehindQuote(s: Bytes, k: nat)
    requires Terminated(s) && k < |s| && s[k] == QUOTE
    ensures k + 1 < |s| && Terminated(s[k + 1..])
  {
    TerminatedNext(s, k);
  }

  lemma NotPaired(s: Bytes)
    requires Terminated(s) && ClosingQuote(s).Some? && s[0] != QUOTE && NUL !in s[..ClosingQuote(s).value]
    requires s[ClosingQuote(s).value - 1] != BACKSLASH
    ensures s[0] == BACKSLASH ==> |s| > 2 && (s[1] == BACKSLASH ==> s[2] != QUOTE)
  {
    hide ClosingQuote;
    ClosingStep(s);
  }

  /** The first escape or plain byte of a body is copied, and the rest is a body again. */
  lemma StringHead(s: Bytes, k: nat) returns (n: nat, t: Bytes)
    requires Terminated(s) && ClosingQuote(s) == Some(k) && s[0] != QUOTE && NUL !in s[..k]
    requires s[0] == BACKSLASH ==> |s| > 2 && (s[1] == BACKSLASH ==> s[2] != QUOTE)
    ensures n == (if s[0] == BACKSLASH then 2 else 1) && n <= k < |s|
    ensures t == s[n..] && Terminated(t) && ClosingQuote(t) == Some(k - n)
    ensures NUL !in t[..k - n] && (k > n ==> t[k - n - 1] == s[k - 1])
    ensures MinifiedString(s) == s[..n] + MinifiedString(t)
  {
    hide *;
    n := HeadLength(s);
    ClosingStep(s);
    HeadPositive(s);
    HeadCases(s);
    HeadKept(s);
    t := s[n..];
  }

  lemma QuoteFirst(s: Bytes)
    requires s != [] && ClosingQuote(s).Some?
    ensures s[0] == QUOTE ==> ClosingQuote(s).value == 0
  {
  }

  lemma NotPairedYet(s: Bytes)
    requires Terminated(s) && ClosingQuote(s).Some? && s[0] != QUOTE && NUL !in s[..ClosingQuote(s).value]
    requires s[ClosingQuote(s).value - 1] == BACKSLASH && !(s[0] == BACKSLASH && ClosingQuote(s).value == 2)
    ensures s[0] == BACKSLASH ==> |s| > 2 && (s[1] == BACKSLASH ==> s[2] != QUOTE)
  {
    hide ClosingQuote;
    ClosingStep(s);
  }

  lemma {:induction false} StringKept(s: Bytes)
    requires Terminated(s) && ClosingQuote(s).Some? && NUL !in s[..ClosingQuote(s).value]
    requires ClosingQuote(s).value > 0 ==> s[ClosingQuote(s).value - 1] != BACKSLASH
    ensures var k := ClosingQuote(s).value;
      k + 1 < |s| && MinifiedString(s) == s[..k + 1] + Minified(s[k + 1..])
    decreases |s|
  {
    hide *;
    var k := ClosingQuote(s).value;
    BehindQuote(s, k);
    if s[0] == QUOTE {
      EmptyStringKept(s);
    } else {
      NotPaired(s);
      var n, t := StringHead(s, k);
      StringKept(t);
      Rejoin(s, n, k + 1 - n, Minified(s[k + 1..]));
    }
  }

  lemma BackslashPair(s: Bytes)
    requires Terminated(s) && |s| > 3 && s[0] == BACKSLASH && s[1] == BACKSLASH && s[2] == QUOTE
    ensures MinifiedString(s) == s[..3] + MinifiedString(s[3..])
  {
    hide Minified, MinifiedString, Terminated;
    FirstThree(s);
    TerminatedNext(s, 0);
    TerminatedNext(s, 1);
    TerminatedNext(s, 2);
    StringStep(s, 0);
    StringStep(s, 1);
    Carry3([s[0]], [s[1]], [s[2]], MinifiedString(s[3..]));
  }

  lemma FirstThree(s: Bytes)
    requires |s| >= 3
    ensures s[0..] == s && s[..3] == [s[0]] + ([s[1]] + [s[2]])
  {
  }

  /** Minify takes the parser's closing quote for an escaped one exactly after a backslash. */
  lemma {:induction false} StringRunsOn(s: Bytes)
    requires Terminated(s) && ClosingQuote(s).Some? && NUL !in s[..ClosingQuote(s).value]
    requires ClosingQuote(s).value > 0 && s[ClosingQuote(s).value - 1] == BACKSLASH
    ensures var k := ClosingQuote(s).value;
      k + 1 < |s| && MinifiedString(s) == s[..k + 1] + MinifiedString(s[k + 1..])
    decreases |s|
  {
    hide *;
    var k := ClosingQuote(s).value;
    BehindQuote(s, k);
    QuoteFirst(s);
    if s[0] == BACKSLASH && k == 2 {
      BackslashPair(s);
    } else {
      NotPairedYet(s);
      var n, t := StringHead(s, k);
      StringRunsOn(t);
      Rejoin(s, n, k + 1 - n, MinifiedString(s[k + 1..]));
    }
  }

  lemma {:induction false} ClosingKept(s: Bytes, r: Bytes)
    requires ClosingQuote(s).Some?
    ensures ClosingQuote(s[..ClosingQuote(s).value + 1] + r) == ClosingQuote(s)
    decreases |s|
  {
    var k := ClosingQuote(s).value;
    if s[0] != QUOTE {
      var n := if s[0] == BACKSLASH then 2 else 1;
      ClosingKept(s[n..], r);
      assert (s[..k + 1] + r)[n..] == s[n..][..k - n + 1] + r;
    }
  }

  lemma BodyParts(body: Bytes, r: Bytes)
    ensures var x := body + ([QUOTE] + r);
      x[..|body|] == body && x[|body| + 1..] == r && x[..|body| + 1] == body + [QUOTE]
      && forall i | 0 <= i < |body| :: x[i] == body[i]
  {
  }

  /** What is left of a text from here on, if the minifier is inside a string or outside. */
  function MinifiedFrom(s: Bytes, inside: bool): (r: Bytes)
    requires Terminated(s)
    ensures Terminated(r) && |r| <= |s|
  {
    if inside then MinifiedString(s) else Minified(s)
  }

  /** Whether the minifier is inside a string behind a literal it entered inside or outside of one. */
  predicate Leaves(body: Bytes, inside: bool) {
    if inside && QUOTE !in body then true else body != [] && body[|body| - 1] == BACKSLASH
  }

  /** A literal read in step is copied whole. */
  lemma InStep(body: Bytes, r: Bytes)
    requires ClosingQuote(body + ([QUOTE] + r)) == Some(|body|) && Terminated(r) && NUL !in body
    ensures Terminated(body + ([QUOTE] + r))
    ensures MinifiedString(body + ([QUOTE] + r)) == body + ([QUOTE] + MinifiedFrom(r, Leaves(body, false)))
  {
    hide ClosingQuote, MinifiedString, Minified, Terminated;
    var x := body + ([QUOTE] + r);
    BodyParts(body, r);
    TerminatedAfter([QUOTE], r);
    TerminatedAfter(body, [QUOTE] + r);
    if Leaves(body, false) {
      StringRunsOn(x);
    } else {
      StringKept(x);
    }
    Carry2(body, [QUOTE], MinifiedFrom(r, Leaves(body, false)));
  }

  // ---- literals read out of step ----

  /** Nothing is lost: no blank and no slash before the first (escaped) quote, which puts the
      minifier inside a string again. */
  predicate Whole(body: Bytes) {
    body == [] || body[0] == QUOTE || (!Blank(body[0]) && body[0] != SLASH && Whole(body[1..]))
  }

  /** No comment starts and no slash is escaped before the first quote: what is lost are single
      blanks and slashes. */
  predicate Uncut(ts: seq<Token>) {
    if ts == [] || ts[0] == Short(QUOTE) then true
    else
      && ts[0] != Short(SLASH)
      && (ts[0] == Raw(SLASH) ==> LiteralText(ts[1..]) == [] || LiteralText(ts[1..])[0] !in {SLASH, STAR})
      && Uncut(ts[1..])
  }

  predicate Lost(t: Token) { t.Raw? && (Blank(t.b) || t.b == SLASH) }

  /** The tokens that are left. */
  function Left(ts: seq<Token>): seq<Token> {
    if ts == [] || ts[0] == Short(QUOTE) then ts
    else if Lost(ts[0]) then Left(ts[1..])
    else [ts[0]] + Left(ts[1..])
  }

  predicate Tokens(ts: seq<Token>) { forall t <- ts :: WellFormed(t) }

  /** Literals whose fate is settled: nothing is lost, or they are well-formed (section 7 of
      RFC 8259) and nothing but single blanks and slashes is lost. */
  ghost predicate Settled(body: Bytes) {
    Whole(body) || exists ts :: Tokens(ts) && Uncut(ts) && LiteralText(ts) == body
  }

  /** The bodies of the literals of a text that are read out of step. */
  function OutOfStep(s: Bytes, inside: bool): seq<Bytes>
    decreases |s|
  {
    if s == [] then []
    else if s[0] != QUOTE then OutOfStep(s[1..], inside)
    else match ClosingQuote(s[1..])
      case None => []
      case Some(k) =>
        var body := s[1..1 + k];
        (if inside then [body] else []) + OutOfStep(s[k + 2..], Leaves(body, inside))
  }

  /** Every literal of the text is copied whole. */
  predicate Keeps(s: Bytes, inside: bool) {
    forall body | body in OutOfStep(s, inside) :: Whole(body)
  }

  ghost predicate Clear(s: Bytes, inside: bool) {
    forall body | body in OutOfStep(s, inside) :: Settled(body)
  }

  lemma KeepsClear(s: Bytes, inside: bool)
    requires Keeps(s, inside)
    ensures Clear(s, inside)
  {
  }

  lemma SameBodies(s: Bytes, t: Bytes, inside: bool)
    requires OutOfStep(s, inside) == OutOfStep(t, inside)
    ensures Keeps(s, inside) == Keeps(t, inside) && Clear(s, inside) == Clear(t, inside)
  {
  }

  /** Bytes copied outside strings. */
  predicate Copied(p: Bytes) {
    forall i | 0 <= i < |p| :: p[i] != NUL && !Blank(p[i]) && p[i] != SLASH && p[i] != QUOTE
  }

  lemma {:induction false} RunCopied(p: Bytes, y: Bytes)
    requires Copied(p) && Terminated(y)
    ensures Terminated(p + y) && Minified(p + y) == p + Minified(y) && Whole(p + y) == Whole(y)
  {
    hide MinifiedString;
    TerminatedAfter(p, y);
    if p == [] {
      assert p + y == y && p + Minified(y) == Minified(y);
    } else {
      assert (p + y)[1..] == p[1..] + y && p == [p[0]] + p[1..];
      RunCopied(p[1..], y);
      Carry2([p[0]], p[1..], Minified(y));
    }
  }

  /** An escaped quote in a literal read out of step: from here on it is read in step. */
  lemma BackInStep(rest: Bytes, r: Bytes)
    requires ClosingQuote(rest + ([QUOTE] + r)) == Some(|rest|) && Terminated(r) && NUL !in rest
    ensures var body := [BACKSLASH] + ([QUOTE] + rest);
      Terminated(body + ([QUOTE] + r))
      && Minified(body + ([QUOTE] + r)) == body + ([QUOTE] + MinifiedFrom(r, Leaves(body, true)))
  {
    hide *;
    var tail := rest + ([QUOTE] + r);
    InStep(rest, r);
    TerminatedAfter([QUOTE], tail);
    TerminatedAfter([BACKSLASH], [QUOTE] + tail);
    var after := [QUOTE] + MinifiedFrom(r, Leaves(rest, false));
    Carry2([QUOTE], rest, [QUOTE] + r);
    Carry2([BACKSLASH], [QUOTE] + rest, [QUOTE] + r);
    Carry2([QUOTE], rest, after);
    Carry2([BACKSLASH], [QUOTE] + rest, after);
    EscapedQuote(tail);
    LeavesBack(rest);
  }

  lemma EscapedQuote(tail: Bytes)
    requires Terminated(tail)
    ensures Terminated([BACKSLASH] + ([QUOTE] + tail))
    ensures Minified([BACKSLASH] + ([QUOTE] + tail)) == [BACKSLASH] + ([QUOTE] + MinifiedString(tail))
  {
    hide MinifiedString;
    TerminatedAfter([QUOTE], tail);
    TerminatedAfter([BACKSLASH], [QUOTE] + tail);
    Uncons(QUOTE, tail);
    Uncons(BACKSLASH, [QUOTE] + tail);
  }

  lemma LeavesBack(rest: Bytes)
    ensures Leaves([BACKSLASH] + ([QUOTE] + rest), true) == Leaves(rest, false)
  {
    assert ([BACKSLASH] + ([QUOTE] + rest))[1] == QUOTE;
  }

  lemma LeavesRun(p: Bytes, y: Bytes)
    requires QUOTE !in p
    ensures Leaves(p + y, true) == Leaves(y, true)
  {
    assert forall i | 0 <= i < |y| :: (p + y)[|p| + i] == y[i];
  }

  /** A whole literal read out of step. */
  lemma {:induction false} WholeCopied(body: Bytes, r: Bytes)
    requires Whole(body) && NUL !in body && Terminated(r) && ClosingQuote(body + ([QUOTE] + r)) == Some(|body|)
    ensures Terminated(body + ([QUOTE] + r))
    ensures Minified(body + ([QUOTE] + r)) == body + ([QUOTE] + MinifiedFrom(r, Leaves(body, true)))
    decreases |body|
  {
    hide Minified, MinifiedString, Terminated, ClosingQuote, Leaves, Copied, Whole, HeadLength;
    var close := [QUOTE] + r;
    TerminatedAfter([QUOTE], r);
    HeadCases(body);
    if body == [] {
      assert body + close == close;
      OutsideQuote(r);
    } else {
      var n := HeadLength(body);
      HeadOfBody(body, r);
      var p, y := body[..n], body[n..];
      if n == 2 && body[1] == QUOTE {
        assert body == [BACKSLASH] + ([QUOTE] + y);
        BackInStep(y, r);
      } else {
        WholeHead(body);
        WholeCopied(y, r);
        assert body == p + y;
        RunThen(p, y, r);
      }
    }
  }

  lemma RunThen(p: Bytes, y: Bytes, r: Bytes)
    requires Copied(p) && QUOTE !in p && Terminated(r) && Terminated(y + ([QUOTE] + r))
    requires Minified(y + ([QUOTE] + r)) == y + ([QUOTE] + MinifiedFrom(r, Leaves(y, true)))
    ensures Terminated(p + y + ([QUOTE] + r))
    ensures Minified(p + y + ([QUOTE] + r)) == p + y + ([QUOTE] + MinifiedFrom(r, Leaves(p + y, true)))
  {
    hide Minified, MinifiedFrom, Terminated, Leaves, Copied;
    RunCopied(p, y + ([QUOTE] + r));
    Carry2(p, y, [QUOTE] + r);
    Carry2(p, y, [QUOTE] + MinifiedFrom(r, Leaves(y, true)));
    LeavesRun(p, y);
  }

  lemma OutsideQuote(r: Bytes)
    requires Terminated(r)
    ensures Terminated([QUOTE] + r) && Minified([QUOTE] + r) == [] + ([QUOTE] + MinifiedFrom(r, Leaves([], true)))
  {
    hide MinifiedString;
    Uncons(QUOTE, r);
  }

  lemma HeadOfBody(body: Bytes, r: Bytes)
    requires body != [] && ClosingQuote(body + ([QUOTE] + r)) == Some(|body|) && NUL !in body
    ensures var n := HeadLength(body);
      n <= |body| && body[0] != QUOTE && (body[0] == BACKSLASH <==> n == 2) && NUL !in body[n..]
      && ClosingQuote(body[n..] + ([QUOTE] + r)) == Some(|body| - n)
  {
    hide *;
    var close := [QUOTE] + r;
    var x, n := body + close, HeadLength(body);
    HeadCases(body);
    HeadCases(x);
    FirstOf(body, close);
    CloseUnfold(x);
    ShiftedTo(n, ClosingQuote(x[n..]), |body|);
    DropFirst(body, close, n);
    SuffixWithout(body, n);
  }

  lemma SuffixWithout(s: Bytes, n: nat)
    requires n <= |s| && NUL !in s
    ensures NUL !in s[n..]
  {
  }

  lemma FirstOf(a: Bytes, b: Bytes)
    requires a != []
    ensures a + b != [] && (a + b)[0] == a[0]
  {
  }

  lemma ShiftedTo(n: nat, k: Option<nat>, m: nat)
    requires Shift(n, k) == Some(m)
    ensures n <= m && k == Some(m - n)
  {
  }

  lemma DropFirst(a: Bytes, b: Bytes, n: nat)
    requires n <= |a|
    ensures (a + b)[n..] == a[n..] + b
  {
  }

  lemma WholeHead(body: Bytes)
    requires body != [] && Whole(body) && NUL !in body && body[0] != QUOTE && HeadLength(body) <= |body|
    requires HeadLength(body) == 2 ==> body[1] != QUOTE
    ensures Copied(body[..HeadLength(body)]) && Whole(body[HeadLength(body)..])
    ensures QUOTE !in body[..HeadLength(body)]
  {
    if HeadLength(body) == 2 {
      assert body[1..][1..] == body[2..];
    }
  }

  // ---- literals that lose single blanks and slashes ----

  lemma TokenCases(t: Token)
    requires WellFormed(t) && t != Short(QUOTE) && t != Short(SLASH) && !Lost(t) && NUL !in TokenText(t)
    ensures Copied(TokenText(t)) && QUOTE !in TokenText(t)
  {
    hide HexValue;
    match t
    case Raw(_) =>
    case Short(_) =>
    case Unit(h) =>
      HexCopied(h);
    case Pair(hi, lo) =>
      HexCopied(hi);
      HexCopied(lo);
  }

  lemma HexCopied(h: Bytes)
    requires IsHex4(h)
    ensures forall c <- h :: c != NUL && !Blank(c) && c != SLASH && c != QUOTE
  {
  }

  lemma TextCons(ts: seq<Token>)
    requires ts != [] && Tokens(ts)
    ensures LiteralText(ts) == TokenText(ts[0]) + LiteralText(ts[1..]) && Tokens(ts[1..]) && WellFormed(ts[0])
    ensures LiteralMeaning(ts) == Meaning(ts[0]) + LiteralMeaning(ts[1..])
    ensures NUL !in LiteralText(ts) ==> NUL !in TokenText(ts[0]) && NUL !in LiteralText(ts[1..])
  {
    var p, y := TokenText(ts[0]), LiteralText(ts[1..]);
    assert forall i | 0 <= i < |p| :: (p + y)[i] == p[i];
    assert forall i | 0 <= i < |y| :: (p + y)[|p| + i] == y[i];
  }

  lemma ConsText(t: Token, us: seq<Token>)
    requires WellFormed(t) && Tokens(us)
    ensures Tokens([t] + us)
    ensures LiteralText([t] + us) == TokenText(t) + LiteralText(us)
    ensures LiteralMeaning([t] + us) == Meaning(t) + LiteralMeaning(us)
  {
    assert ([t] + us)[1..] == us;
    TextCons([t] + us);
  }

  lemma {:induction false} LeftTokens(ts: seq<Token>)
    requires Tokens(ts)
    ensures Tokens(Left(ts))
  {
    if ts != [] && ts[0] != Short(QUOTE) {
      LeftTokens(ts[1..]);
    }
  }

  lemma MeaningLength(t: Token)
    requires WellFormed(t)
    ensures |Meaning(t)| > 0
  {
  }

  /** Losing a blank or a slash shortens the string, so it is noticed. */
  lemma {:induction false} LeftShorter(ts: seq<Token>)
    requires Tokens(ts) && Uncut(ts) && NUL !in LiteralText(ts)
    ensures Tokens(Left(ts))
    ensures |LiteralMeaning(Left(ts))| <= |LiteralMeaning(ts)|
    ensures |LiteralMeaning(Left(ts))| == |LiteralMeaning(ts)| <==> Whole(LiteralText(ts))
    ensures Whole(LiteralText(ts)) ==> Left(ts) == ts
  {
    hide LiteralText, LiteralMeaning, WellFormed, Meaning, TokenText, Whole;
    LeftTokens(ts);
    if ts == [] {
      WholeNothing();
    } else if ts[0] == Short(QUOTE) {
      TextCons(ts);
      WholeQuote(LiteralText(ts[1..]));
    } else {
      TextCons(ts);
      LeftShorter(ts[1..]);
      if Lost(ts[0]) {
        MeaningLength(ts[0]);
        LostNotWhole(ts[0], LiteralText(ts[1..]));
      } else {
        TokenCases(ts[0]);
        ConsText(ts[0], Left(ts[1..]));
        WholeRun(TokenText(ts[0]), LiteralText(ts[1..]));
        assert [ts[0]] + ts[1..] == ts;
      }
    }
  }

  lemma WholeNothing()
    ensures LiteralText([]) == [] && Whole([])
  {
  }

  lemma WholeQuote(y: Bytes)
    ensures TokenText(Short(QUOTE)) == [BACKSLASH, QUOTE] && Whole([BACKSLASH, QUOTE] + y)
  {
    assert ([BACKSLASH, QUOTE] + y)[1..][0] == QUOTE;
  }

  lemma LostNotWhole(t: Token, y: Bytes)
    requires Lost(t)
    ensures !Whole(TokenText(t) + y)
  {
  }

  lemma {:induction false} WholeRun(p: Bytes, y: Bytes)
    requires Copied(p)
    ensures Whole(p + y) == Whole(y)
  {
    if p == [] {
      assert p + y == y;
    } else {
      assert (p + y)[1..] == p[1..] + y;
      WholeRun(p[1..], y);
    }
  }

  lemma LostOutside(t: Token, y: Bytes)
    requires Lost(t) && Terminated(y) && (t == Raw(SLASH) ==> y[0] != SLASH && y[0] != STAR)
    ensures Terminated(TokenText(t) + y) && Minified(TokenText(t) + y) == Minified(y)
  {
    assert (TokenText(t) + y)[1..] == y;
  }

  lemma LeavesToken(t: Token, y: Bytes)
    requires Lost(t) && WellFormed(t)
    ensures Leaves(TokenText(t) + y, true) == Leaves(y, true)
  {
    LeavesRun(TokenText(t), y);
  }

  lemma {:induction false} TokensLeft(ts: seq<Token>, r: Bytes)
    requires Tokens(ts) && Uncut(ts) && NUL !in LiteralText(ts) && Terminated(r)
    ensures var body := LiteralText(ts);
      Terminated(body + ([QUOTE] + r))
      && Minified(body + ([QUOTE] + r)) == LiteralText(Left(ts)) + ([QUOTE] + MinifiedFrom(r, Leaves(body, true)))
  {
    hide LiteralText, LiteralMeaning, WellFormed, TokenText, Minified, MinifiedString, Terminated, Leaves;
    var close := [QUOTE] + r;
    TerminatedAfter([QUOTE], r);
    if ts == [] {
      WholeNothing();
      assert [] + close == close;
      OutsideQuote(r);
    } else {
      var p, y := TokenText(ts[0]), LiteralText(ts[1..]);
      TextCons(ts);
      LiteralScanned(ts[1..], r);
      Carry2(p, y, close);
      if ts[0] == Short(QUOTE) {
        WholeQuote(y);
        Carry2([BACKSLASH], [QUOTE], y);
        assert [BACKSLASH] + [QUOTE] == [BACKSLASH, QUOTE];
        BackInStep(y, r);
      } else {
        TokensLeft(ts[1..], r);
        LeftTokens(ts[1..]);
        if Lost(ts[0]) {
          assert y + close != [] && (y != [] ==> (y + close)[0] == y[0]) && (y == [] ==> y + close == close);
          LostOutside(ts[0], y + close);
          LeavesToken(ts[0], y);
        } else {
          TokenCases(ts[0]);
          RunCopied(p, y + close);
          ConsText(ts[0], Left(ts[1..]));
          Carry2(p, LiteralText(Left(ts[1..])), [QUOTE] + MinifiedFrom(r, Leaves(y, true)));
          LeavesRun(p, y);
        }
      }
    }
  }

  // ---- one piece of the text at a time ----

  lemma FirstKept(s: Bytes, inside: bool)
    requires Sealed(s) && !Blank(s[0]) && s[0] != SLASH
    ensures MinifiedFrom(s, inside)[0] == s[0]
  {
  }

  /** A byte between literals other than blanks. */
  predicate Plain(c: byte) { c > 32 && c != SLASH && c != QUOTE && c != BACKSLASH }

  lemma PlainKept(s: Bytes, inside: bool)
    requires Sealed(s) && Plain(s[0])
    ensures Sealed(s[1..]) && MinifiedFrom(s, inside) == [s[0]] + MinifiedFrom(s[1..], inside)
    ensures OutOfStep(s, inside) == OutOfStep(s[1..], inside)
  {
    SealedSuffix(s, 1);
  }

  lemma {:induction false} PlainRunKept(s: Bytes, n: nat, inside: bool)
    requires Sealed(s) && n < |s| && forall i | 0 <= i < n :: Plain(s[i])
    ensures Sealed(s[n..]) && MinifiedFrom(s, inside) == s[..n] + MinifiedFrom(s[n..], inside)
    ensures OutOfStep(s, inside) == OutOfStep(s[n..], inside)
  {
    hide MinifiedFrom, OutOfStep, Sealed, Plain;
    if n == 0 {
      assert s[0..] == s && s[..0] + MinifiedFrom(s, inside) == MinifiedFrom(s, inside);
    } else {
      PlainKept(s, inside);
      PlainRunKept(s[1..], n - 1, inside);
      SuffixOfSuffix(s, 1, n - 1);
      TakeSplit(s, 1, n - 1);
      assert s[..1] == [s[0]];
      Carry2([s[0]], s[1..][..n - 1], MinifiedFrom(s[n..], inside));
    }
  }

  /** Skipping space and minifying commute. */
  lemma {:induction false} SpaceKept(r: Bytes, inside: bool)
    requires Sealed(r) && SkipSpace(r)[0] != SLASH
    ensures SkipSpace(MinifiedFrom(r, inside)) == MinifiedFrom(SkipSpace(r), inside) && Sealed(SkipSpace(r))
    ensures OutOfStep(r, inside) == OutOfStep(SkipSpace(r), inside)
    decreases |r|
  {
    hide ClosingQuote, Leaves;
    if r[0] > 32 {
      FirstKept(r, inside);
    } else if |r| > 1 {
      SealedSuffix(r, 0);
      SealedSuffix(r, 1);
      SpaceKept(r[1..], inside);
      SpaceByte(r, inside);
    }
  }

  lemma SpaceByte(r: Bytes, inside: bool)
    requires Sealed(r) && r[0] <= 32 && |r| > 1 && Terminated(r[1..])
    ensures SkipSpace(MinifiedFrom(r, inside)) == SkipSpace(MinifiedFrom(r[1..], inside))
  {
    SealedSuffix(r, 0);
    if inside || !Blank(r[0]) {
      Uncons(r[0], MinifiedFrom(r[1..], inside));
    }
  }

  predicate Follow(r: Bytes)
    requires Terminated(r)
  {
    var c := SkipSpace(r)[0]; c == COMMA || c == RBRACKET || c == RBRACE || c == NUL
  }

  lemma NumberEnds(r: Bytes, inside: bool)
    requires Sealed(r) && Follow(r)
    ensures !NumberChar(r[0]) && !NumberChar(MinifiedFrom(r, inside)[0])
  {
    SpaceKept(r, inside);
    FirstKept(SkipSpace(r), inside);
    hide MinifiedFrom;
    assert MinifiedFrom(r, inside)[0] > 32 ==> SkipSpace(MinifiedFrom(r, inside)) == MinifiedFrom(r, inside);
  }

  /** The text around a string literal: its body, and what follows the closing quote. */
  lemma LiteralParts(s: Bytes, k: nat)
    requires Sealed(s) && s[0] == QUOTE && ClosingQuote(s[1..]) == Some(k)
    ensures k + 2 < |s| && Sealed(s[k + 2..]) && NUL !in s[1..1 + k]
    ensures s[1..] == s[1..1 + k] + ([QUOTE] + s[k + 2..]) && s == [QUOTE] + s[1..]
  {
    hide ClosingQuote, Sealed, Terminated;
    QuoteFound(s[1..], k);
    assert s[1 + k] == s[1..][k];
    SealedSuffix(s, 1 + k);
    SealedSuffix(s, k + 2);
    SealedMeaning(s);
    assert s[1..1 + k] == s[..|s| - 1][1..1 + k];
  }

  lemma QuoteFound(t: Bytes, k: nat)
    requires ClosingQuote(t) == Some(k)
    ensures k < |t| && t[k] == QUOTE
  {
  }

  lemma QuoteStep(s: Bytes, k: nat, inside: bool)
    requires Terminated(s) && s[0] == QUOTE && ClosingQuote(s[1..]) == Some(k)
    ensures MinifiedFrom(s, inside) == [QUOTE] + MinifiedFrom(s[1..], !inside)
    ensures var body := s[1..1 + k];
      OutOfStep(s, inside) == (if inside then [body] else []) + OutOfStep(s[k + 2..], Leaves(body, inside))
  {
    hide ClosingQuote, Leaves, Minified, MinifiedString, OutOfStep;
    QuoteRead(s, inside);
    QuoteBodies(s, k, inside);
  }

  lemma QuoteRead(s: Bytes, inside: bool)
    requires Terminated(s) && s[0] == QUOTE
    ensures Terminated(s[1..]) && MinifiedFrom(s, inside) == [QUOTE] + MinifiedFrom(s[1..], !inside)
  {
  }

  lemma QuoteBodies(s: Bytes, k: nat, inside: bool)
    requires s != [] && s[0] == QUOTE && ClosingQuote(s[1..]) == Some(k)
    ensures var body := s[1..1 + k];
      OutOfStep(s, inside) == (if inside then [body] else []) + OutOfStep(s[k + 2..], Leaves(body, inside))
  {
    hide ClosingQuote, Leaves;
  }

  lemma LiteralBodies(s: Bytes, k: nat, inside: bool)
    requires Terminated(s) && s[0] == QUOTE && ClosingQuote(s[1..]) == Some(k)
    ensures var body := s[1..1 + k];
      && (Keeps(s, inside) <==> (inside ==> Whole(body)) && Keeps(s[k + 2..], Leaves(body, inside)))
      && (Clear(s, inside) <==> (inside ==> Settled(body)) && Clear(s[k + 2..], Leaves(body, inside)))
  {
    hide ClosingQuote, OutOfStep, Whole, Settled, Leaves;
    QuoteStep(s, k, inside);
    var body, more := s[1..1 + k], OutOfStep(s[k + 2..], Leaves(s[1..1 + k], inside));
    assert forall b :: b in [body] + more <==> b == body || b in more;
    assert [] + more == more;
  }

  /** What is left of one literal: its closing quote decides how far parse_string reads. */
  lemma LiteralLeft(body: Bytes, r: Bytes, inside: bool) returns (left: Bytes)
    requires ClosingQuote(body + ([QUOTE] + r)) == Some(|body|) && NUL !in body && Terminated(r)
    requires Unescape(body).Done? && (inside ==> Settled(body))
    ensures Terminated(body + ([QUOTE] + r))
    ensures var m := MinifiedFrom(r, Leaves(body, inside));
      && MinifiedFrom(body + ([QUOTE] + r), !inside) == left + ([QUOTE] + m)
      && ClosingQuote(left + ([QUOTE] + m)) == Some(|left|)
    ensures Unescape(left).Done?
    ensures Unescape(left) == Unescape(body) <==> (inside ==> Whole(body))
  {
    hide ClosingQuote, Unescape, Minified, MinifiedString, Terminated;
    hide Leaves, LiteralText, LiteralMeaning, Uncut, Whole;
    var m := MinifiedFrom(r, Leaves(body, inside));
    if inside && !Whole(body) {
      var ts :| Tokens(ts) && Uncut(ts) && LiteralText(ts) == body;
      TokensLeft(ts, r);
      LeftShorter(ts);
      left := LiteralText(Left(ts));
      LiteralScanned(Left(ts), m);
      LiteralUnescapes(ts);
      LiteralUnescapes(Left(ts));
    } else {
      left := body;
      if inside {
        WholeCopied(body, r);
      } else {
        InStep(body, r);
      }
      BodyParts(body, r);
      ClosingKept(body + ([QUOTE] + r), m);
      Carry2(body, [QUOTE], m);
    }
  }

  /** What parse_string reads from the minified text, and whether it is the same. */
  lemma StringMinified(s: Bytes, inside: bool) returns (w: Bytes, after: bool)
    requires Sealed(s) && s[0] == QUOTE && ParseString(s).Ok? && Clear(s, inside)
    ensures var p := ParseString(s);
      && Sealed(p.rest) && Clear(p.rest, after)
      && ParseString(MinifiedFrom(s, inside)) == Ok(w, MinifiedFrom(p.rest, after))
      && (Keeps(s, inside) <==> w == p.value && Keeps(p.rest, after))
  {
    var k := ClosingQuote(s[1..]).value;
    hide ClosingQuote, Unescape, Sealed, Keeps, Clear, Terminated, MinifiedFrom, Whole, Settled, Leaves, ParseString;
    LiteralParts(s, k);
    LiteralBodies(s, k, inside);
    QuoteStep(s, k, inside);
    var body, r := s[1..1 + k], s[k + 2..];
    StringRead(body, r);
    after := Leaves(body, inside);
    var left := LiteralLeft(body, r, inside);
    StringRead(left, MinifiedFrom(r, after));
    w := Unescape(left).bytes;
  }

  lemma NumberMinified(s: Bytes, inside: bool)
    requires Sealed(s) && ParseNumber(s).Ok? && Sealed(ParseNumber(s).rest) && Follow(ParseNumber(s).rest)
    ensures var p := ParseNumber(s);
      && OutOfStep(s, inside) == OutOfStep(p.rest, inside)
      && ParseNumber(MinifiedFrom(s, inside)) == Ok(p.value, MinifiedFrom(p.rest, inside))
  {
    hide Strtod, MinifiedFrom, OutOfStep;
    var r := ParseNumber(s).rest;
    NumberEnds(r, inside);
    var n := |s| - |r|;
    assert s[n] == r[0];
    assert n == Window(s, WINDOW);
    PlainRunKept(s, n, inside);
    var m := MinifiedFrom(r, inside);
    WindowEnds(s[..n], m, WINDOW);
    assert (s[..n] + m)[..n] == s[..n] && (s[..n] + m)[n..] == m;
  }

  lemma WordMinified(s: Bytes, w: Bytes, inside: bool)
    requires Sealed(s) && w != [] && NUL !in w && Word(s, w)
    requires forall c <- w :: Plain(c)
    ensures Sealed(s[|w|..]) && OutOfStep(s, inside) == OutOfStep(s[|w|..], inside)
    ensures var m := MinifiedFrom(s, inside);
      m == w + MinifiedFrom(s[|w|..], inside) && Word(m, w) && m[|w|..] == MinifiedFrom(s[|w|..], inside)
  {
    hide MinifiedFrom, OutOfStep, StartsWith, Plain;
    StartsWithLength(s, w);
    assert forall i | 0 <= i < |w| :: s[i] == s[..|w|][i] && w[i] in w;
    PlainRunKept(s, |w|, inside);
    StartsWithPrefix(w, MinifiedFrom(s[|w|..], inside));
  }

  // ---- the grammar ----

  predicate Container(c: byte) { c == LBRACKET || c == LBRACE }

  lemma NumberRest(s: Bytes)
    requires Sealed(s) && ParseNumber(s).Ok? && (s[0] == MINUS || IsDigit(s[0]))
    ensures Sealed(ParseNumber(s).rest)
  {
    hide Strtod;
    SealedSuffix(s, |s| - |ParseNumber(s).rest|);
  }

  lemma ScalarMinified(s: Bytes, d: nat, inside: bool) returns (w: Json, after: bool)
    requires Sealed(s) && Clear(s, inside) && !Container(s[0])
    requires ParseValue(s, d).Ok? && Follow(ParseValue(s, d).rest)
    ensures var p := ParseValue(s, d);
      && Sealed(p.rest) && Clear(p.rest, after)
      && ParseValue(MinifiedFrom(s, inside), d) == Ok(w, MinifiedFrom(p.rest, after))
      && (Keeps(s, inside) <==> w == p.value && Keeps(p.rest, after))
  {
    hide ParseString, ParseNumber, MinifiedFrom, OutOfStep, Sealed, StartsWith, Keeps, Clear;
    ValueHead(s, d);
    FirstKept(s, inside);
    w, after := ParseValue(s, d).value, inside;
    if Word(s, NULL_WORD) {
      WordMinified(s, NULL_WORD, inside);
      SameBodies(s, s[4..], inside);
    } else if Word(s, FALSE_WORD) {
      WordMinified(s, FALSE_WORD, inside);
      SameBodies(s, s[5..], inside);
    } else if Word(s, TRUE_WORD) {
      WordMinified(s, TRUE_WORD, inside);
      SameBodies(s, s[4..], inside);
    } else if s[0] == QUOTE {
      var str;
      str, after := StringMinified(s, inside);
      w := String(str);
    } else {
      NumberRest(s);
      NumberMinified(s, inside);
      SameBodies(s, ParseNumber(s).rest, inside);
    }
  }

  /** After a separator: one byte and the space behind it. */
  lemma SeparatorMinified(t: Bytes, inside: bool)
    requires Sealed(t) && Plain(t[0])
    requires Terminated(t[1..]) && SkipSpace(t[1..])[0] != SLASH
    ensures var u, m := SkipSpace(t[1..]), MinifiedFrom(t, inside);
      && Sealed(u) && OutOfStep(t, inside) == OutOfStep(u, inside) && m[0] == t[0]
      && Terminated(m[1..]) && SkipSpace(m[1..]) == MinifiedFrom(u, inside)
  {
    hide MinifiedFrom, OutOfStep, SkipSpace;
    PlainKept(t, inside);
    SpaceKept(t[1..], inside);
    Uncons(t[0], MinifiedFrom(t[1..], inside));
  }

  lemma CloserMinified(t: Bytes, inside: bool)
    requires Sealed(t) && Plain(t[0])
    ensures var m := MinifiedFrom(t, inside);
      && Sealed(t[1..]) && OutOfStep(t, inside) == OutOfStep(t[1..], inside)
      && m[0] == t[0] && m[1..] == MinifiedFrom(t[1..], inside)
  {
    hide MinifiedFrom, OutOfStep;
    PlainKept(t, inside);
    Uncons(t[0], MinifiedFrom(t[1..], inside));
  }

  /** The value the parser reads from the minified text, and the mode behind it: the same value iff
      nothing was lost on the way. */
  lemma {:induction false} ValueMinified(s: Bytes, d: nat, inside: bool) returns (w: Json, after: bool)
    requires Sealed(s) && Clear(s, inside)
    requires ParseValue(s, d).Ok? && Follow(ParseValue(s, d).rest)
    ensures var p := ParseValue(s, d);
      && Sealed(p.rest) && Clear(p.rest, after)
      && ParseValue(MinifiedFrom(s, inside), d) == Ok(w, MinifiedFrom(p.rest, after))
      && (Keeps(s, inside) <==> w == p.value && Keeps(p.rest, after))
    decreases |s|, 2
  {
    hide ParseValue, MinifiedFrom, Keeps, Clear, Sealed;
    if s[0] == LBRACKET {
      w, after := ArrayMinified(s, d, inside);
    } else if s[0] == LBRACE {
      w, after := ObjectMinified(s, d, inside);
    } else {
      w, after := ScalarMinified(s, d, inside);
    }
  }

  lemma {:induction false} ItemsMinified(s: Bytes, d: nat, inside: bool) returns (w: Chain, after: bool)
    requires Sealed(s) && Clear(s, inside) && ParseItems(s, d).Ok?
    ensures var p := ParseItems(s, d);
      && Sealed(p.rest) && Clear(p.rest, after)
      && ParseItems(MinifiedFrom(s, inside), d) == Ok(w, MinifiedFrom(p.rest, after))
      && (Keeps(s, inside) <==> w == p.value && Keeps(p.rest, after))
    decreases |s|, 3
  {
    hide ParseValue, ParseItems, MinifiedFrom, Keeps, Clear, Sealed, SkipSpace;
    ItemsHead(s, d);
    ItemsUnfold(s, d);
    var r := ParseValue(s, d).rest;
    var t := SkipSpace(r);
    assert Follow(r);
    var v;
    v, after := ValueMinified(s, d, inside);
    SpaceKept(r, after);
    SameBodies(r, t, after);
    ItemsUnfold(MinifiedFrom(s, inside), d);
    if t[0] == COMMA {
      var u := SkipSpace(t[1..]);
      ItemsHead(u, d);
      ValueHead(u, d);
      SeparatorMinified(t, after);
      SameBodies(t, u, after);
      w, after := ItemsMinified(u, d, after);
      w := Node(None, v, w);
    } else {
      CloserMinified(t, after);
      SameBodies(t, t[1..], after);
      w := Node(None, v, End);
    }
  }

  lemma {:induction false} ArrayMinified(s: Bytes, d: nat, inside: bool) returns (w: Json, after: bool)
    requires Sealed(s) && Clear(s, inside) && s[0] == LBRACKET && ParseValue(s, d).Ok?
    ensures var p := ParseValue(s, d);
      && Sealed(p.rest) && Clear(p.rest, after)
      && ParseValue(MinifiedFrom(s, inside), d) == Ok(w, MinifiedFrom(p.rest, after))
      && (Keeps(s, inside) <==> w == p.value && Keeps(p.rest, after))
    decreases |s|, 1
  {
    hide ParseValue, ParseItems, MinifiedFrom, Keeps, Clear, Sealed, SkipSpace;
    ArrayUnfold(s, d);
    var t := SkipSpace(s[1..]);
    if t[0] != RBRACKET {
      ItemsHead(t, d + 1);
      ValueHead(t, d + 1);
    }
    SeparatorMinified(s, inside);
    SameBodies(s, t, inside);
    ArrayUnfold(MinifiedFrom(s, inside), d);
    if t[0] == RBRACKET {
      CloserMinified(t, inside);
      SameBodies(t, t[1..], inside);
      w, after := Array(End), inside;
    } else {
      var items;
      items, after := ItemsMinified(t, d + 1, inside);
      FirstKept(t, inside);
      w := Array(items);
    }
  }

  lemma {:induction false} ObjectMinified(s: Bytes, d: nat, inside: bool) returns (w: Json, after: bool)
    requires Sealed(s) && Clear(s, inside) && s[0] == LBRACE && ParseValue(s, d).Ok?
    ensures var p := ParseValue(s, d);
      && Sealed(p.rest) && Clear(p.rest, after)
      && ParseValue(MinifiedFrom(s, inside), d) == Ok(w, MinifiedFrom(p.rest, after))
      && (Keeps(s, inside) <==> w == p.value && Keeps(p.rest, after))
    decreases |s|, 1
  {
    hide ParseValue, ParseMembers, MinifiedFrom, Keeps, Clear, Sealed, SkipSpace;
    ObjectUnfold(s, d);
    var t := SkipSpace(s[1..]);
    if t[0] != RBRACE {
      MembersHead(t, d + 1);
    }
    SeparatorMinified(s, inside);
    SameBodies(s, t, inside);
    ObjectUnfold(MinifiedFrom(s, inside), d);
    if t[0] == RBRACE {
      CloserMinified(t, inside);
      SameBodies(t, t[1..], inside);
      w, after := Object(End), inside;
    } else {
      var members;
      members, after := MembersMinified(t, d + 1, inside);
      FirstKept(t, inside);
      w := Object(members);
    }
  }

  lemma NameMinified(s: Bytes, d: nat, inside: bool) returns (w: Bytes, after: bool)
    requires Sealed(s) && Clear(s, inside) && ParseName(s).Ok? && ParseValue(ParseName(s).rest, d).Ok?
    ensures var p := ParseName(s);
      && Sealed(p.rest) && Clear(p.rest, after)
      && ParseName(MinifiedFrom(s, inside)) == Ok(w, MinifiedFrom(p.rest, after))
      && (Keeps(s, inside) <==> w == p.value && Keeps(p.rest, after))
  {
    hide ParseValue, ParseString, ParseName, MinifiedFrom, Keeps, Clear, Sealed, SkipSpace;
    NameUnfold(s);
    w, after := StringMinified(s, inside);
    var r := ParseString(s).rest;
    var t := SkipSpace(r);
    SpaceKept(r, after);
    SameBodies(r, t, after);
    ValueHead(SkipSpace(t[1..]), d);
    SeparatorMinified(t, after);
    SameBodies(t, SkipSpace(t[1..]), after);
    NameUnfold(MinifiedFrom(s, inside));
  }

  lemma {:induction false} MembersMinified(s: Bytes, d: nat, inside: bool) returns (w: Chain, after: bool)
    requires Sealed(s) && Clear(s, inside) && ParseMembers(s, d).Ok?
    ensures var p := ParseMembers(s, d);
      && Sealed(p.rest) && Clear(p.rest, after)
      && ParseMembers(MinifiedFrom(s, inside), d) == Ok(w, MinifiedFrom(p.rest, after))
      && (Keeps(s, inside) <==> w == p.value && Keeps(p.rest, after))
    decreases |s|, 4
  {
    hide ParseValue, ParseString, ParseName, ParseMembers, MinifiedFrom, Keeps, Clear, Sealed, SkipSpace;
    MembersHead(s, d);
    MembersUnfold(s, d);
    var name, v;
    name, after := NameMinified(s, d, inside);
    var u := ParseName(s).rest;
    var r := ParseValue(u, d).rest;
    var t := SkipSpace(r);
    assert Follow(r);
    v, after := ValueMinified(u, d, after);
    SpaceKept(r, after);
    SameBodies(r, t, after);
    MembersUnfold(MinifiedFrom(s, inside), d);
    if t[0] == COMMA {
      var x := SkipSpace(t[1..]);
      MembersHead(x, d);
      SeparatorMinified(t, after);
      SameBodies(t, x, after);
      w, after := MembersMinified(x, d, after);
      w := Node(Some(name), v, w);
    } else {
      CloserMinified(t, after);
      SameBodies(t, t[1..], after);
      w := Node(Some(name), v, End);
    }
  }

  // ---- whole texts ----

  lemma MarkFirst(m: Bytes)
    requires Terminated(m)
    ensures StartsWith(m, BOM) ==> SkipSpace(m)[0] == 0xEF
  {
  }

  lemma BomSkipped(s: Bytes)
    requires Sealed(s) && |s| > 4 && StartsWith(s, BOM) && 32 < SkipSpace(s[3..])[0] && SkipSpace(s[3..])[0] != SLASH
    ensures Sealed(s[3..]) && OutOfStep(s, false) == OutOfStep(s[3..], false)
    ensures SkipBom(Minified(s)) == Minified(s[3..])
  {
    hide Minified, OutOfStep, StartsWith, Sealed, SkipSpace, Terminated;
    StartsWithLength(s, BOM);
    assert forall i | 0 <= i < 3 :: s[i] == s[..3][i];
    PlainRunKept(s, 3, false);
    var m := Minified(s[3..]);
    SpaceKept(s[3..], false);
    FirstKept(SkipSpace(s[3..]), false);
    NotOnlyNul(m);
    StartsWithPrefix(BOM, m);
    assert (BOM + m)[3..] == m;
  }

  lemma NotOnlyNul(m: Bytes)
    requires Terminated(m) && SkipSpace(m)[0] != NUL
    ensures |m| > 1
  {
  }

  lemma BomKept(s: Bytes, d: nat)
    requires Sealed(s) && ParseValue(SkipSpace(SkipBom(s)), d).Ok?
    ensures Sealed(SkipBom(s)) && OutOfStep(s, false) == OutOfStep(SkipBom(s), false)
    ensures SkipBom(Minified(s)) == Minified(SkipBom(s))
  {
    hide ParseValue, Minified, OutOfStep, StartsWith, Sealed, SkipSpace;
    var t := SkipSpace(SkipBom(s));
    ValueHead(t, d);
    if |s| > 4 && StartsWith(s, BOM) {
      BomSkipped(s);
    } else {
      SpaceKept(s, false);
      FirstKept(t, false);
      MarkFirst(Minified(s));
    }
  }

  /** A complete text whose literals are settled is read again after minifying, and as the same tree
      iff nothing was lost in a literal. */
  lemma MinifiedTree(text: Bytes)
    requires NUL !in text && Parse(text, true).Ok? && Clear(text + [NUL], false)
    ensures NUL !in MinifiedText(text) && Parse(MinifiedText(text), true).Ok?
    ensures Parse(MinifiedText(text), true) == Parse(text, true) <==> Keeps(text + [NUL], false)
  {
    hide ParseValue, Minified, Keeps, Clear, Sealed, SkipSpace, SkipBom, MinifiedText;
    MinifiedTextMeaning(text);
    var s := text + [NUL];
    var b := SkipBom(s);
    var t := SkipSpace(b);
    BomKept(s, 0);
    SameBodies(s, b, false);
    ValueHead(t, 0);
    SpaceKept(b, false);
    SameBodies(b, t, false);
    var r := ParseValue(t, 0).rest;
    assert Follow(r);
    var w, after := ValueMinified(t, 0, false);
    SpaceKept(r, after);
    SameBodies(r, SkipSpace(r), after);
    SealedSuffix(SkipSpace(r), 0);
    assert SkipSpace(r) == [NUL];
    MinifiedNul(after);
  }

  lemma MinifiedNul(inside: bool)
    ensures MinifiedFrom([NUL], inside) == [NUL] && Keeps([NUL], inside)
  {
  }

  /** Minifying a complete text keeps the tree the parser reads, unless a literal read out of step
      has a blank or a slash before its first quote. */
  lemma MinifyKeepsTree(text: Bytes)
    requires NUL !in text && Parse(text, true).Ok? && Keeps(text + [NUL], false)
    ensures NUL !in MinifiedText(text) && Parse(MinifiedText(text), true) == Parse(text, true)
  {
    hide Parse, Minified, Keeps, Clear, MinifiedText;
    KeepsClear(text + [NUL], false);
    MinifiedTree(text);
  }

  /** No string literal of the text ends in an (escaped) backslash. */
  predicate NoFinalBackslash(s: Bytes)
    decreases |s|
  {
    if s == [] then true
    else if s[0] != QUOTE then NoFinalBackslash(s[1..])
    else match ClosingQuote(s[1..])
      case None => true
      case Some(k) => (k > 0 ==> s[k] != BACKSLASH) && NoFinalBackslash(s[k + 2..])
  }

  /** Without such a literal no other is ever read out of step. */
  lemma {:induction false} NeverOutOfStep(s: Bytes)
    requires NoFinalBackslash(s)
    ensures OutOfStep(s, false) == [] && Keeps(s, false)
    decreases |s|
  {
    hide ClosingQuote, Whole;
    if s != [] && s[0] != QUOTE {
      NeverOutOfStep(s[1..]);
    } else if s != [] && ClosingQuote(s[1..]).Some? {
      var k := ClosingQuote(s[1..]).value;
      assert k > 0 ==> s[1..1 + k][k - 1] == s[k];
      NeverOutOfStep(s[k + 2..]);
    }
  }

  // ---- a literal that ends in an escaped backslash ----

  /** The text of an array of two string literals with these bodies. */
  function PairText(a: Bytes, b: Bytes): Bytes {
    [LBRACKET] + ([QUOTE] + (a + ([QUOTE] + ([COMMA] + ([QUOTE] + (b + ([QUOTE] + [RBRACKET])))))))
  }

  function PairOf(a: Bytes, b: Bytes): Json {
    Array(Node(None, String(a), Node(None, String(b), End)))
  }

  lemma StringValue(ts: seq<Token>, r: Bytes, d: nat)
    requires (forall t <- ts :: WellFormed(t)) && Terminated(r)
    ensures Terminated([QUOTE] + (LiteralText(ts) + ([QUOTE] + r)))
    ensures SkipSpace([QUOTE] + (LiteralText(ts) + ([QUOTE] + r))) == [QUOTE] + (LiteralText(ts) + ([QUOTE] + r))
    ensures ParseValue([QUOTE] + (LiteralText(ts) + ([QUOTE] + r)), d) == Ok(String(LiteralMeaning(ts)), r)
  {
    hide LiteralText, LiteralMeaning, WellFormed, ParseString, ParseNumber;
    var s := [QUOTE] + (LiteralText(ts) + ([QUOTE] + r));
    LiteralParses(ts, r);
    assert s == [QUOTE] + LiteralText(ts) + [QUOTE] + r;
    assert s[|s| - 1] == r[|r| - 1];
    assert s[0] == QUOTE;
  }

  lemma PairParses(ts: seq<Token>, us: seq<Token>)
    requires (forall t <- ts :: WellFormed(t)) && (forall t <- us :: WellFormed(t))
    requires NUL !in PairText(LiteralText(ts), LiteralText(us))
    ensures Parse(PairText(LiteralText(ts), LiteralText(us)), true)
         == Ok(PairOf(LiteralMeaning(ts), LiteralMeaning(us)), [NUL])
  {
    hide LiteralText, LiteralMeaning, WellFormed, ParseValue, ParseItems, Terminated;
    var a, b := LiteralText(ts), LiteralText(us);
    var r0 := [RBRACKET] + [NUL];
    var second := [QUOTE] + (b + ([QUOTE] + r0));
    var r1 := [COMMA] + second;
    var first := [QUOTE] + (a + ([QUOTE] + r1));
    TerminatedNul();
    TerminatedAfter([RBRACKET], [NUL]);
    StringValue(us, r0, 1);
    TerminatedAfter([COMMA], second);
    StringValue(ts, r1, 1);
    LastItem(second, 1, String(LiteralMeaning(us)), [NUL]);
    NextItem(first, 1, String(LiteralMeaning(ts)), second);
    ArrayStep(first, 0);
    var s := PairText(a, b) + [NUL];
    assert s == [LBRACKET] + first;
    ParseWhole(PairText(a, b), PairOf(LiteralMeaning(ts), LiteralMeaning(us)));
  }

  lemma TerminatedNul()
    ensures Terminated([NUL]) && SkipSpace([NUL]) == [NUL]
  {
  }

  lemma ParseWhole(text: Bytes, v: Json)
    requires NUL !in text && text != [] && 32 < text[0] < 128
    requires Terminated(text + [NUL]) && ParseValue(text + [NUL], 0) == Ok(v, [NUL])
    ensures Parse(text, true) == Ok(v, [NUL])
  {
    hide ParseValue;
  }

  lemma {:induction false} LiteralLast(ts: seq<Token>)
    requires ts != []
    ensures LiteralText(ts) != []
    ensures var t := TokenText(ts[|ts| - 1]); LiteralText(ts)[|LiteralText(ts)| - 1] == t[|t| - 1]
  {
    hide TokenText;
    if |ts| > 1 {
      LiteralLast(ts[1..]);
    }
  }

  const AFTER_BLANK: Bytes := [COMMA, QUOTE, SPACE, QUOTE, RBRACKET, NUL]

  const AFTER_NONE: Bytes := [COMMA, QUOTE, QUOTE, RBRACKET, NUL]

  lemma PairLayout(body: Bytes)
    ensures PairText(body, [SPACE]) + [NUL] == [LBRACKET] + ([QUOTE] + (body + ([QUOTE] + AFTER_BLANK)))
    ensures PairText(body, []) + [NUL] == [LBRACKET] + ([QUOTE] + (body + ([QUOTE] + AFTER_NONE)))
  {
  }

  lemma TailMinified()
    ensures Terminated(AFTER_BLANK) && MinifiedString(AFTER_BLANK) == AFTER_NONE
  {
    var r := AFTER_BLANK;
    assert r[1..] == [QUOTE, SPACE, QUOTE, RBRACKET, NUL];
    assert r[1..][1..] == [SPACE, QUOTE, RBRACKET, NUL];
    assert r[1..][1..][1..] == [QUOTE, RBRACKET, NUL];
    assert [QUOTE, RBRACKET, NUL][1..] == [RBRACKET, NUL];
    assert [RBRACKET, NUL][1..] == [NUL];
    assert MinifiedString([RBRACKET, NUL]) == [RBRACKET, NUL];
    assert Minified([QUOTE, RBRACKET, NUL]) == [QUOTE, RBRACKET, NUL];
    assert Minified(r[1..][1..]) == [QUOTE, RBRACKET, NUL];
    assert MinifiedString(r[1..]) == [QUOTE, QUOTE, RBRACKET, NUL];
  }

  lemma Opening(x: Bytes)
    requires Terminated(x)
    ensures Terminated([LBRACKET] + ([QUOTE] + x))
    ensures Minified([LBRACKET] + ([QUOTE] + x)) == [LBRACKET] + ([QUOTE] + MinifiedString(x))
  {
    hide MinifiedString;
    Uncons(QUOTE, x);
    Uncons(LBRACKET, [QUOTE] + x);
  }

  lemma Closing(m: Bytes, text: Bytes)
    requires m == text + [NUL] && NUL !in text
    ensures CString(m) == text
  {
    assert m[..|m| - 1] == text;
    SealedCString(m);
  }

  lemma PairMinified(body: Bytes)
    requires body != [] && NUL !in body && body[|body| - 1] == BACKSLASH
    requires ClosingQuote(body + ([QUOTE] + AFTER_BLANK)) == Some(|body|)
    ensures NUL !in PairText(body, [SPACE]) && NUL !in PairText(body, [])
    ensures MinifiedText(PairText(body, [SPACE])) == PairText(body, [])
  {
    hide MinifiedString, Minified, ClosingQuote, Terminated;
    PairLayout(body);
    TailMinified();
    InStep(body, AFTER_BLANK);
    TerminatedAfter([QUOTE], AFTER_BLANK);
    TerminatedAfter(body, [QUOTE] + AFTER_BLANK);
    Opening(body + ([QUOTE] + AFTER_BLANK));
    Closing(Minified(PairText(body, [SPACE]) + [NUL]), PairText(body, []));
  }

  lemma BlankAndNone()
    ensures LiteralText([Raw(SPACE)]) == [SPACE] && LiteralMeaning([Raw(SPACE)]) == [SPACE]
    ensures LiteralText([]) == [] && LiteralMeaning([]) == []
    ensures WellFormed(Raw(SPACE))
  {
    assert [Raw(SPACE)][1..] == [];
  }

  lemma EndsInBackslash(ts: seq<Token>)
    requires ts != [] && ts[|ts| - 1] == Short(BACKSLASH)
    ensures LiteralText(ts) != [] && LiteralText(ts)[|LiteralText(ts)| - 1] == BACKSLASH
  {
    LiteralLast(ts);
  }

  lemma BlankPairParses(ts: seq<Token>)
    requires (forall t <- ts :: WellFormed(t)) && NUL !in PairText(LiteralText(ts), [SPACE])
    ensures Parse(PairText(LiteralText(ts), [SPACE]), true) == Ok(PairOf(LiteralMeaning(ts), [SPACE]), [NUL])
  {
    hide LiteralText, LiteralMeaning, Parse, PairText, WellFormed, Terminated;
    BlankAndNone();
    PairParses(ts, [Raw(SPACE)]);
  }

  lemma EmptyPairParses(ts: seq<Token>)
    requires (forall t <- ts :: WellFormed(t)) && NUL !in PairText(LiteralText(ts), [])
    ensures Parse(PairText(LiteralText(ts), []), true) == Ok(PairOf(LiteralMeaning(ts), []), [NUL])
  {
    hide LiteralText, LiteralMeaning, Parse, PairText, WellFormed, Terminated;
    BlankAndNone();
    PairParses(ts, []);
  }

  /** Every literal that ends in an escaped backslash has a text around it whose parse Minify
      changes: here the blank in the next literal is lost. */
  lemma FinalBackslashBreaks(ts: seq<Token>)
    requires (forall t <- ts :: WellFormed(t)) && NUL !in LiteralText(ts)
    requires ts != [] && ts[|ts| - 1] == Short(BACKSLASH)
    ensures var text := PairText(LiteralText(ts), [SPACE]);
      && NUL !in text && Parse(text, true) == Ok(PairOf(LiteralMeaning(ts), [SPACE]), [NUL])
      && NUL !in MinifiedText(text)
      && Parse(MinifiedText(text), true) == Ok(PairOf(LiteralMeaning(ts), []), [NUL])
  {
    hide *;
    EndsInBackslash(ts);
    LiteralScanned(ts, AFTER_BLANK);
    PairMinified(LiteralText(ts));
    BlankPairParses(ts);
    EmptyPairParses(ts);
  }
}
