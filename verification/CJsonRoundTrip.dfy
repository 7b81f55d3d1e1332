/** Parsing undoes printing. */
module CJsonRoundTrip {
  import opened Text
  import opened CJsonValue
  import opened CJsonString
  import opened CJsonNumber
  import opened CJsonParse
  import opened CJsonRender

  /** Whether a parser already inside `depth` containers can take v. */
  predicate Fits(nesting: nat, depth: nat) { nesting == 0 || depth + nesting <= NESTING_LIMIT }

  /** A suffix that ends a value: terminated, and not continuing a number. */
  predicate Follows(r: Bytes) { Terminated(r) && !NumberChar(r[0]) }

  lemma {:induction false} SkipTabs(n: nat, r: Bytes)
    requires Terminated(r)
    ensures SkipSpace(Repeat(TAB, n) + r) == SkipSpace(r)
  {
    var s := Repeat(TAB, n) + r;
    if n == 0 {
      assert s == r;
    } else {
      SkipTabs(n - 1, r);
      assert s[1..] == Repeat(TAB, n - 1) + r;
    }
  }

  lemma SkipLayout(fmt: bool, b: byte, n: nat, r: Bytes)
    requires Terminated(r) && r[0] > 32 && b <= 32
    ensures SkipSpace(Only(fmt, [b]) + (Tabs(fmt, n) + r)) == r
    ensures SkipSpace(Only(fmt, [b]) + r) == r
  {
    if fmt {
      SkipTabs(n, r);
      Uncons(b, Repeat(TAB, n) + r);
      Uncons(b, r);
    } else {
      assert [] + r == r;
      assert [] + ([] + r) == r;
    }
  }

  /** A value's text starts at a visible character that ends no container. */
  lemma RenderHead(v: Json, depth: nat, fmt: bool)
    ensures Render(v, depth, fmt)[0] > 32 && Render(v, depth, fmt)[0] != RBRACKET
  {
    if v.Number? {
      var s := IntegerText(v.num.mant);
      assert s[0] in s;
    }
  }

  lemma ScalarRoundTrip(v: Json, depth: nat, fmt: bool, d: nat, r: Bytes)
    requires Printable(v) && Follows(r) && !v.Array? && !v.Object?
    ensures Terminated(Render(v, depth, fmt) + r)
    ensures ParseValue(Render(v, depth, fmt) + r, d) == Ok(Norm(v), r)
  {
    hide ParseString, ParseNumber, ParseArray, ParseObject, Word;
    TerminatedAfter(Render(v, depth, fmt), r);
    match v
    case Number(n) =>
      NumberRoundTrip(n, r);
      var t := IntegerText(n.mant);
      assert t[0] in t && (t + r)[0] == t[0];
    case String(b) =>
      StringRoundTrip(CString(b), r);
      assert (Quoted(CString(b)) + r)[0] == QUOTE;
    case Null => WordRead(NULL_WORD, v, d, r);
    case False => WordRead(FALSE_WORD, v, d, r);
    case True => WordRead(TRUE_WORD, v, d, r);
  }

  lemma {:induction false} ValueRoundTrip(v: Json, depth: nat, fmt: bool, d: nat, r: Bytes)
    requires Printable(v) && Follows(r) && d <= NESTING_LIMIT
    ensures Terminated(Render(v, depth, fmt) + r)
    ensures Fits(Nesting(v), d) ==> ParseValue(Render(v, depth, fmt) + r, d) == Ok(Norm(v), r)
    ensures !Fits(Nesting(v), d) ==> ParseValue(Render(v, depth, fmt) + r, d).Fail?
    decreases v, 1
  {
    match v
    case Array(c) => ArrayRoundTrip(c, depth, fmt, d, r);
    case Object(c) => ObjectRoundTrip(c, depth, fmt, d, r);
    case _ => ScalarRoundTrip(v, depth, fmt, d, r);
  }

  lemma {:induction false} ArrayRoundTrip(c: Chain, depth: nat, fmt: bool, d: nat, r: Bytes)
    requires ChainPrintable(c) && Follows(r) && d <= NESTING_LIMIT
    ensures var s := Render(Array(c), depth, fmt) + r;
      Terminated(s) &&
      if Fits(1 + ChainNesting(c), d) then ParseValue(s, d) == Ok(Array(NormItems(c)), r) else ParseValue(s, d).Fail?
    decreases c, 2
  {
    hide ParseValue, ParseItems, SkipSpace, Render, RenderItems;
    var t := ArrayText(c, depth, fmt, r);
    if d == NESTING_LIMIT {
      TooDeep(LBRACKET, t, d);
    } else {
      ArrayStep(t, d);
      NoSpace(t);
      if c == End {
        Uncons(RBRACKET, r);
      } else {
        ItemsRoundTrip(c, depth + 1, fmt, d + 1, r);
      }
    }
  }

  lemma ArrayText(c: Chain, depth: nat, fmt: bool, r: Bytes) returns (t: Bytes)
    requires Terminated(r)
    ensures Render(Array(c), depth, fmt) + r == [LBRACKET] + t
    ensures Terminated(t) && t[0] > 32
    ensures t == RenderItems(c, depth + 1, fmt) + ([RBRACKET] + r)
    ensures if c == End then t == [RBRACKET] + r else t[0] != RBRACKET
  {
    hide Terminated;
    var items := RenderItems(c, depth + 1, fmt);
    t := items + ([RBRACKET] + r);
    Carry3([LBRACKET], items, [RBRACKET], r);
    TerminatedAfter([RBRACKET], r);
    TerminatedAfter(items, [RBRACKET] + r);
    if c == End {
      assert t == [RBRACKET] + r;
    } else {
      ItemsHead(c, depth + 1, fmt, [RBRACKET] + r);
    }
  }

  lemma ItemsHead(c: Chain, depth: nat, fmt: bool, x: Bytes)
    requires c != End
    ensures var t := RenderItems(c, depth, fmt) + x; t[0] > 32 && t[0] != RBRACKET
  {
    RenderHead(c.item, depth, fmt);
  }

  /** What follows an item that is not the last: a comma and, after it, the remaining items. */
  lemma ItemMore(c: Chain, depth: nat, fmt: bool, close: Bytes) returns (t: Bytes)
    requires c != End && c.next != End && Terminated(close)
    ensures RenderItems(c, depth, fmt) + close == Render(c.item, depth, fmt) + ([COMMA] + t)
    ensures Terminated(t) && Terminated([COMMA] + t)
    ensures SkipSpace(t) == RenderItems(c.next, depth, fmt) + close
  {
    var space, rest := Only(fmt, [SPACE]), RenderItems(c.next, depth, fmt);
    t := space + (rest + close);
    Carry3(Render(c.item, depth, fmt), ItemSeparator(c.next, fmt), rest, close);
    Carry2([COMMA], space, rest + close);
    TerminatedAfter(rest, close);
    TerminatedAfter(space, rest + close);
    TerminatedAfter([COMMA], t);
    ItemsHead(c.next, depth, fmt, close);
    SkipLayout(fmt, SPACE, 0, rest + close);
  }

  lemma LastText(c: Chain, depth: nat, fmt: bool, close: Bytes)
    requires c != End && c.next == End
    ensures RenderItems(c, depth, fmt) + close == Render(c.item, depth, fmt) + close
  {
    hide Render;
    assert RenderItems(c.next, depth, fmt) == [];
    assert Render(c.item, depth, fmt) + ([] + []) == Render(c.item, depth, fmt);
  }

  lemma {:induction false} ItemsRoundTrip(c: Chain, depth: nat, fmt: bool, d: nat, r: Bytes)
    requires c != End && ChainPrintable(c) && Follows(r) && d <= NESTING_LIMIT
    ensures var s := RenderItems(c, depth, fmt) + ([RBRACKET] + r);
      Terminated(s) &&
      if Fits(ChainNesting(c), d) then ParseItems(s, d) == Ok(NormItems(c), r) else ParseItems(s, d).Fail?
    decreases c, 1
  {
    hide ParseValue, ParseItems, SkipSpace, Render;
    var close := [RBRACKET] + r;
    var s := RenderItems(c, depth, fmt) + close;
    TerminatedAfter([RBRACKET], r);
    if c.next == End {
      LastText(c, depth, fmt, close);
      assert NormItems(c.next) == End && ChainNesting(c.next) == 0;
      ValueRoundTrip(c.item, depth, fmt, d, close);
      if Fits(Nesting(c.item), d) {
        LastItem(s, d, Norm(c.item), r);
      } else {
        ItemFails(s, d);
      }
    } else {
      var t := ItemMore(c, depth, fmt, close);
      ValueRoundTrip(c.item, depth, fmt, d, [COMMA] + t);
      ItemsRoundTrip(c.next, depth, fmt, d, r);
      if Fits(Nesting(c.item), d) {
        NextItem(s, d, Norm(c.item), t);
      } else {
        ItemFails(s, d);
      }
    }
  }

  /** The members from the first name on, followed by `close`. */
  function MembersTo(c: Chain, depth: nat, fmt: bool, close: Bytes): Bytes
    requires c != End
  {
    Quoted(NameBytes(c.name)) + ([COLON] + (Only(fmt, [TAB]) + ValueTo(c, depth, fmt, close)))
  }

  function ValueTo(c: Chain, depth: nat, fmt: bool, close: Bytes): Bytes
    requires c != End
  {
    Render(c.item, depth, fmt) + AfterValue(c, depth, fmt, close)
  }

  function AfterValue(c: Chain, depth: nat, fmt: bool, close: Bytes): Bytes
    requires c != End
  {
    MemberEnd(c.next, fmt) + (RenderMembers(c.next, depth, fmt) + close)
  }

  lemma MembersTerminated(c: Chain, depth: nat, fmt: bool, close: Bytes)
    requires c != End && Terminated(close)
    ensures Terminated(AfterValue(c, depth, fmt, close)) && Terminated(ValueTo(c, depth, fmt, close))
    ensures Terminated(MembersTo(c, depth, fmt, close)) && MembersTo(c, depth, fmt, close)[0] == QUOTE
  {
    TerminatedAfter(RenderMembers(c.next, depth, fmt), close);
    TerminatedAfter(MemberEnd(c.next, fmt), RenderMembers(c.next, depth, fmt) + close);
    TerminatedAfter(Render(c.item, depth, fmt), AfterValue(c, depth, fmt, close));
    var value := ValueTo(c, depth, fmt, close);
    TerminatedAfter(Only(fmt, [TAB]), value);
    TerminatedAfter([COLON], Only(fmt, [TAB]) + value);
    TerminatedAfter(Quoted(NameBytes(c.name)), [COLON] + (Only(fmt, [TAB]) + value));
  }

  lemma MembersStart(c: Chain, depth: nat, fmt: bool, b: byte, close: Bytes)
    requires c != End && Terminated(close) && b <= 32
    ensures Terminated(Only(fmt, [b]) + (RenderMembers(c, depth, fmt) + close))
    ensures SkipSpace(Only(fmt, [b]) + (RenderMembers(c, depth, fmt) + close)) == MembersTo(c, depth, fmt, close)
  {
    TerminatedAfter(RenderMembers(c, depth, fmt), close);
    TerminatedAfter(Only(fmt, [b]), RenderMembers(c, depth, fmt) + close);
    Carry4(MemberHead(c.name, depth, fmt), Render(c.item, depth, fmt),
           MemberEnd(c.next, fmt), RenderMembers(c.next, depth, fmt), close);
    Carry4(Tabs(fmt, depth), Quoted(NameBytes(c.name)), [COLON], Only(fmt, [TAB]), ValueTo(c, depth, fmt, close));
    MembersTerminated(c, depth, fmt, close);
    SkipLayout(fmt, b, depth, MembersTo(c, depth, fmt, close));
  }

  lemma ObjectText(c: Chain, depth: nat, fmt: bool, r: Bytes) returns (t: Bytes)
    requires Terminated(r)
    ensures Render(Object(c), depth, fmt) + r == [LBRACE] + t && Terminated(t)
    ensures t == Only(fmt, [NEWLINE]) + (RenderMembers(c, depth + 1, fmt) + (Tabs(fmt, depth) + ([RBRACE] + r)))
    ensures c == End ==> SkipSpace(t) == [RBRACE] + r
  {
    hide Terminated, SkipSpace;
    var members := RenderMembers(c, depth + 1, fmt);
    var close := Tabs(fmt, depth) + ([RBRACE] + r);
    t := Only(fmt, [NEWLINE]) + (members + close);
    Carry5([LBRACE], Only(fmt, [NEWLINE]), members, Tabs(fmt, depth), [RBRACE], r);
    TerminatedAfter([RBRACE], r);
    TerminatedAfter(Tabs(fmt, depth), [RBRACE] + r);
    TerminatedAfter(members, close);
    TerminatedAfter(Only(fmt, [NEWLINE]), members + close);
    if c == End {
      assert members + close == close;
      SkipLayout(fmt, NEWLINE, depth, [RBRACE] + r);
    }
  }

  lemma {:induction false} ObjectRoundTrip(c: Chain, depth: nat, fmt: bool, d: nat, r: Bytes)
    requires ChainPrintable(c) && Follows(r) && d <= NESTING_LIMIT
    ensures var s := Render(Object(c), depth, fmt) + r;
      Terminated(s) &&
      if Fits(1 + ChainNesting(c), d) then ParseValue(s, d) == Ok(Object(NormMembers(c)), r) else ParseValue(s, d).Fail?
    decreases c, 2
  {
    hide ParseValue, ParseMembers, SkipSpace, MembersTo, Only, Tabs, Render, RenderMembers;
    var t := ObjectText(c, depth, fmt, r);
    if d == NESTING_LIMIT {
      TooDeep(LBRACE, t, d);
    } else {
      ObjectStep(t, d);
      if c == End {
        Uncons(RBRACE, r);
      } else {
        var close := Tabs(fmt, depth) + ([RBRACE] + r);
        TerminatedAfter([RBRACE], r);
        TerminatedAfter(Tabs(fmt, depth), [RBRACE] + r);
        MembersStart(c, depth + 1, fmt, NEWLINE, close);
        MembersTerminated(c, depth + 1, fmt, close);
        MembersRoundTrip(c, depth + 1, fmt, d + 1, depth, r);
      }
    }
  }

  lemma NameRoundTrip(name: Option<Bytes>, fmt: bool, r: Bytes)
    requires Terminated(r) && r[0] > 32
    ensures Terminated(Quoted(NameBytes(name)) + ([COLON] + (Only(fmt, [TAB]) + r)))
    ensures ParseName(Quoted(NameBytes(name)) + ([COLON] + (Only(fmt, [TAB]) + r))) == Ok(NameBytes(name), r)
  {
    var u := Only(fmt, [TAB]) + r;
    TerminatedAfter(Only(fmt, [TAB]), r);
    TerminatedAfter([COLON], u);
    TerminatedAfter(Quoted(NameBytes(name)), [COLON] + u);
    StringRoundTrip(NameBytes(name), [COLON] + u);
    Uncons(COLON, u);
    SkipLayout(fmt, TAB, 0, r);
  }

  lemma MemberMore(c: Chain, depth: nat, fmt: bool, close: Bytes)
    requires c != End && c.next != End && Terminated(close)
    ensures var t := Only(fmt, [NEWLINE]) + (RenderMembers(c.next, depth, fmt) + close);
      Terminated(t) && AfterValue(c, depth, fmt, close) == [COMMA] + t
      && SkipSpace(t) == MembersTo(c.next, depth, fmt, close)
  {
    MembersStart(c.next, depth, fmt, NEWLINE, close);
    Carry2([COMMA], Only(fmt, [NEWLINE]), RenderMembers(c.next, depth, fmt) + close);
  }

  lemma MemberLast(c: Chain, depth: nat, fmt: bool, outer: nat, r: Bytes)
    requires c != End && c.next == End && Terminated(r)
    ensures var after := AfterValue(c, depth, fmt, Tabs(fmt, outer) + ([RBRACE] + r));
      Follows(after) && SkipSpace(after) == [RBRACE] + r
  {
    hide Terminated, SkipSpace;
    var close := Tabs(fmt, outer) + ([RBRACE] + r);
    TerminatedAfter([RBRACE], r);
    TerminatedAfter(Tabs(fmt, outer), [RBRACE] + r);
    assert AfterValue(c, depth, fmt, close) == Only(fmt, [NEWLINE]) + close;
    TerminatedAfter(Only(fmt, [NEWLINE]), close);
    SkipLayout(fmt, NEWLINE, outer, [RBRACE] + r);
  }

  lemma {:induction false} MembersRoundTrip(c: Chain, depth: nat, fmt: bool, d: nat, outer: nat, r: Bytes)
    requires c != End && ChainPrintable(c) && Follows(r) && d <= NESTING_LIMIT
    ensures var s := MembersTo(c, depth, fmt, Tabs(fmt, outer) + ([RBRACE] + r));
      Terminated(s) &&
      if Fits(ChainNesting(c), d) then ParseMembers(s, d) == Ok(NormMembers(c), r) else ParseMembers(s, d).Fail?
    decreases c, 1
  {
    hide ParseValue, ParseMembers, ParseName, SkipSpace, Render, Quoted, AfterValue, Only, Tabs, Terminated;
    var close := Tabs(fmt, outer) + ([RBRACE] + r);
    TerminatedAfter([RBRACE], r);
    TerminatedAfter(Tabs(fmt, outer), [RBRACE] + r);
    MembersTerminated(c, depth, fmt, close);
    var s, u, after := MembersTo(c, depth, fmt, close), ValueTo(c, depth, fmt, close), AfterValue(c, depth, fmt, close);
    RenderHead(c.item, depth, fmt);
    NameRoundTrip(c.name, fmt, u);
    if c.next == End {
      MemberLast(c, depth, fmt, outer, r);
      ValueRoundTrip(c.item, depth, fmt, d, after);
      if Fits(Nesting(c.item), d) {
        LastMember(s, d, NameBytes(c.name), u, Norm(c.item), after, r);
      } else {
        MemberFails(s, d);
      }
    } else {
      MemberMore(c, depth, fmt, close);
      ValueRoundTrip(c.item, depth, fmt, d, after);
      MembersRoundTrip(c.next, depth, fmt, d, outer, r);
      if Fits(Nesting(c.item), d) {
        NextMember(s, d, NameBytes(c.name), u, Norm(c.item),
                   Only(fmt, [NEWLINE]) + (RenderMembers(c.next, depth, fmt) + close));
      } else {
        MemberFails(s, d);
      }
    }
  }

  /** Parse undoes print: every printable tree nested at most 1000 deep comes back as its normal
      form from either rendering, and a deeper one is rejected. */
  lemma ParseUndoesPrint(v: Json, fmt: bool, whole: bool)
    requires Printable(v)
    ensures NUL !in Render(v, 0, fmt)
    ensures var p := Parse(Render(v, 0, fmt), whole);
      if Nesting(v) <= 1000 then p == Ok(Norm(v), [NUL]) else p.Fail?
  {
    RenderNulFree(v, 0, fmt);
    RenderHead(v, 0, fmt);
    var s := Render(v, 0, fmt) + [NUL];
    assert s[0] == Render(v, 0, fmt)[0];
    RenderNoBom(v, fmt);
    ValueRoundTrip(v, 0, fmt, 0, [NUL]);
  }

  lemma RenderNoBom(v: Json, fmt: bool)
    ensures Render(v, 0, fmt)[0] != 0xEF
  {
    if v.Number? {
      var s := IntegerText(v.num.mant);
      assert s[0] in s;
    }
  }

  /** An ordinary tree comes back unchanged. */
  lemma OrdinaryRoundTrip(v: Json, fmt: bool)
    requires Printable(v) && Ordinary(v) && Nesting(v) <= 1000
    ensures NUL !in Render(v, 0, fmt)
    ensures Parse(Render(v, 0, fmt), true) == Ok(v, [NUL])
  {
    ParseUndoesPrint(v, fmt, true);
    NormFixes(v);
  }

  // ---- the other direction: printing what was parsed ----

  /** The parser never builds a tree that it would refuse to read back. */
  lemma {:induction false} ParsedFits(s: Bytes, d: nat)
    requires Terminated(s) && d <= NESTING_LIMIT && ParseValue(s, d).Ok?
    ensures Fits(Nesting(ParseValue(s, d).value), d)
    decreases |s|, 2
  {
    hide ParseString, ParseNumber, Word, SkipSpace;
    if s[0] == LBRACKET && ParseValue(s, d) == ParseArray(s, d) {
      var t := SkipSpace(s[1..]);
      if t[0] != RBRACKET {
        ParsedItemsFit(t, d + 1);
      }
    } else if s[0] == LBRACE && ParseValue(s, d) == ParseObject(s, d) {
      var t := SkipSpace(s[1..]);
      if t[0] != RBRACE {
        ParsedMembersFit(t, d + 1);
      }
    }
  }

  lemma {:induction false} ParsedItemsFit(s: Bytes, d: nat)
    requires Terminated(s) && d <= NESTING_LIMIT && ParseItems(s, d).Ok?
    ensures Fits(ChainNesting(ParseItems(s, d).value), d)
    decreases |s|, 3
  {
    hide ParseValue, SkipSpace;
    ParsedFits(s, d);
    var t := SkipSpace(ParseValue(s, d).rest);
    if t[0] == COMMA {
      ParsedItemsFit(SkipSpace(t[1..]), d);
    }
  }

  lemma {:induction false} ParsedMembersFit(s: Bytes, d: nat)
    requires Terminated(s) && d <= NESTING_LIMIT && ParseMembers(s, d).Ok?
    ensures Fits(ChainNesting(ParseMembers(s, d).value), d)
    decreases |s|, 3
  {
    hide ParseValue, ParseName, SkipSpace;
    var u := ParseName(s).rest;
    ParsedFits(u, d);
    var t := SkipSpace(ParseValue(u, d).rest);
    if t[0] == COMMA {
      ParsedMembersFit(SkipSpace(t[1..]), d);
    }
  }

  /** Whatever text was accepted, printing its tree and parsing again gives the tree's normal
      form, provided its numbers are integers of at most 15 digits. */
  lemma ReparsesAlike(text: Bytes, whole: bool, fmt: bool)
    requires NUL !in text && Parse(text, whole).Ok? && Printable(Parse(text, whole).value)
    ensures var v := Parse(text, whole).value;
      NUL !in Render(v, 0, fmt) && Parse(Render(v, 0, fmt), true) == Ok(Norm(v), [NUL])
  {
    hide ParseValue, SkipSpace, Render;
    var v := Parse(text, whole).value;
    ParsedFits(SkipSpace(SkipBom(text + [NUL])), 0);
    ParseUndoesPrint(v, fmt, true);
  }
}
