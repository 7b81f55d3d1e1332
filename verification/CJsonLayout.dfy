/**
 What the two layouts look like, said about the text alone: the formatted text is what a scanner
 makes of the unformatted one by adding blanks, newlines and tabs outside string literals, and
 the unformatted one has nothing to spare.
 */
module CJsonLayout {
  import opened Text
  import opened Digits
  import opened CJsonValue
  import opened CJsonString
  import opened CJsonNumber
  import opened CJsonParse
  import opened CJsonRender
  import opened CJsonGrammar

  /** Where the scanner is: outside string literals, in one, or behind a backslash in one. */
  datatype Mode = Out | In | Behind

  /** The scanner. The stack says of each open bracket whether it is one of an object; first is right
      behind the opening bracket of an object. */
  function Layout(s: Bytes, stack: seq<bool>, mode: Mode, first: bool): Bytes
    decreases |s|
  {
    if s == [] then []
    else
      var c, t := s[0], s[1..];
      match mode
      case Behind => [c] + Layout(t, stack, In, false)
      case In => [c] + Layout(t, stack, if c == 92 then Behind else if c == 34 then Out else In, false)
      case Out =>
        if c == 91 then [91] + Layout(t, stack + [false], Out, false)
        else if c == 123 then [123, 10] + Layout(t, stack + [true], Out, true)
        else if c == 93 then [93] + Layout(t, Popped(stack), Out, false)
        else if c == 125 then
          (if first then [] else [10]) + (Repeat(9, |Popped(stack)|) + ([125] + Layout(t, Popped(stack), Out, false)))
        else if c == 44 && InObject(stack) then [44, 10] + (Repeat(9, |stack|) + Layout(t, stack, Out, false))
        else if c == 44 then [44, 32] + Layout(t, stack, Out, false)
        else if c == 58 then [58, 9] + Layout(t, stack, Out, false)
        else if c == 34 then (if first then Repeat(9, |stack|) else []) + ([34] + Layout(t, stack, In, false))
        else [c] + Layout(t, stack, Out, false)
  }

  function Popped(stack: seq<bool>): seq<bool> { if stack == [] then [] else stack[..|stack| - 1] }

  predicate InObject(stack: seq<bool>) { stack != [] && stack[|stack| - 1] }

  /** Outside string literals there is nothing but visible bytes. */
  predicate Tight(s: Bytes, mode: Mode)
    decreases |s|
  {
    s == [] ||
    match mode
    case Behind => Tight(s[1..], In)
    case In => Tight(s[1..], if s[0] == 92 then Behind else if s[0] == 34 then Out else In)
    case Out => s[0] > 32 && Tight(s[1..], if s[0] == 34 then In else Out)
  }

  // ---- one step of the scanner ----

  /** Bytes the scanner copies outside string literals. */
  predicate Still(p: Bytes) { forall c <- p :: c > 32 && c !in {34, 44, 58, 91, 93, 123, 125} }

  lemma {:induction false} StillLaid(p: Bytes, r: Bytes, st: seq<bool>)
    requires Still(p)
    ensures Layout(p + r, st, Out, false) == p + Layout(r, st, Out, false)
    ensures Tight(p + r, Out) == Tight(r, Out)
  {
    if p == [] {
      assert p + r == r && p + Layout(r, st, Out, false) == Layout(r, st, Out, false);
    } else {
      assert (p + r)[1..] == p[1..] + r && p[0] in p && p == [p[0]] + p[1..];
      assert forall c <- p[1..] :: c in p;
      StillLaid(p[1..], r, st);
      Carry2([p[0]], p[1..], Layout(r, st, Out, false));
    }
  }

  lemma ByteLaid(c: byte, r: Bytes, st: seq<bool>)
    ensures Layout([c] + r, st, Behind, false) == [c] + Layout(r, st, In, false)
    ensures Tight([c] + r, Behind) == Tight(r, In)
    ensures c == 92 ==> Layout([c] + r, st, In, false) == [c] + Layout(r, st, Behind, false)
    ensures c == 92 ==> Tight([c] + r, In) == Tight(r, Behind)
    ensures c == 34 ==> Layout([c] + r, st, In, false) == [c] + Layout(r, st, Out, false)
    ensures c == 34 ==> Tight([c] + r, In) == Tight(r, Out)
    ensures c != 34 && c != 92 ==> Layout([c] + r, st, In, false) == [c] + Layout(r, st, In, false)
    ensures c != 34 && c != 92 ==> Tight([c] + r, In) == Tight(r, In)
  {
    Uncons(c, r);
  }

  lemma {:induction false} InsideLaid(p: Bytes, r: Bytes, st: seq<bool>)
    requires forall c <- p :: c != 34 && c != 92
    ensures Layout(p + r, st, In, false) == p + Layout(r, st, In, false) && Tight(p + r, In) == Tight(r, In)
  {
    hide Layout, Tight;
    if p == [] {
      assert p + r == r && p + Layout(r, st, In, false) == Layout(r, st, In, false);
    } else {
      assert p + r == [p[0]] + (p[1..] + r) && p[0] in p && p == [p[0]] + p[1..];
      assert forall c <- p[1..] :: c in p;
      ByteLaid(p[0], p[1..] + r, st);
      InsideLaid(p[1..], r, st);
      Carry2([p[0]], p[1..], Layout(r, st, In, false));
    }
  }

  lemma EscapeCases(c: byte)
    ensures var e := EscapeByte(c);
      (e == [c] && c != 34 && c != 92)
      || (|e| >= 2 && e[0] == 92 && e == [92] + ([e[1]] + e[2..]) && forall b <- e[2..] :: b != 34 && b != 92)
  {
  }

  lemma EscapeByteLaid(c: byte, r: Bytes, st: seq<bool>)
    ensures Layout(EscapeByte(c) + r, st, In, false) == EscapeByte(c) + Layout(r, st, In, false)
    ensures Tight(EscapeByte(c) + r, In) == Tight(r, In)
  {
    hide Layout, Tight, EscapeByte;
    var e := EscapeByte(c);
    EscapeCases(c);
    if e == [c] {
      ByteLaid(c, r, st);
    } else {
      InsideLaid(e[2..], r, st);
      ByteLaid(e[1], e[2..] + r, st);
      ByteLaid(92, [e[1]] + (e[2..] + r), st);
      Carry3([92], [e[1]], e[2..], r);
      Carry3([92], [e[1]], e[2..], Layout(r, st, In, false));
    }
  }

  lemma {:induction false} EscapedLaid(s: Bytes, r: Bytes, st: seq<bool>)
    ensures Layout(Escape(s) + r, st, In, false) == Escape(s) + Layout(r, st, In, false)
    ensures Tight(Escape(s) + r, In) == Tight(r, In)
  {
    hide Layout, Tight, EscapeByte;
    if s == [] {
      assert [] + r == r && [] + Layout(r, st, In, false) == Layout(r, st, In, false);
    } else {
      EscapedLaid(s[1..], r, st);
      EscapeByteLaid(s[0], Escape(s[1..]) + r, st);
      Carry2(EscapeByte(s[0]), Escape(s[1..]), r);
      Carry2(EscapeByte(s[0]), Escape(s[1..]), Layout(r, st, In, false));
    }
  }

  lemma OpenQuote(r: Bytes, st: seq<bool>)
    ensures Layout([34] + r, st, Out, false) == [34] + Layout(r, st, In, false)
    ensures Layout([34] + r, st, Out, true) == Repeat(9, |st|) + ([34] + Layout(r, st, In, false))
    ensures Tight([34] + r, Out) == Tight(r, In)
  {
    Uncons(34, r);
    assert [] + ([34] + Layout(r, st, In, false)) == [34] + Layout(r, st, In, false);
  }

  lemma QuotedLaid(s: Bytes, r: Bytes, st: seq<bool>)
    ensures Layout(Quoted(s) + r, st, Out, false) == Quoted(s) + Layout(r, st, Out, false)
    ensures Layout(Quoted(s) + r, st, Out, true) == Repeat(9, |st|) + (Quoted(s) + Layout(r, st, Out, false))
    ensures Tight(Quoted(s) + r, Out) == Tight(r, Out)
  {
    hide Layout, Tight, Escape, Repeat;
    var m := Layout(r, st, Out, false);
    assert Quoted(s) + r == [34] + (Escape(s) + ([34] + r)) && Quoted(s) + m == [34] + (Escape(s) + ([34] + m));
    OpenQuote(Escape(s) + ([34] + r), st);
    EscapedLaid(s, [34] + r, st);
    ByteLaid(34, r, st);
  }

  lemma MarkLaid(c: byte, r: Bytes, st: seq<bool>)
    ensures c == 91 ==> Layout([c] + r, st, Out, false) == [91] + Layout(r, st + [false], Out, false)
    ensures c == 93 ==> Layout([c] + r, st, Out, false) == [93] + Layout(r, Popped(st), Out, false)
    ensures c == 123 ==> Layout([c] + r, st, Out, false) == [123] + ([10] + Layout(r, st + [true], Out, true))
    ensures c == 125 ==>
      && Layout([c] + r, st, Out, true) == Repeat(9, |Popped(st)|) + ([125] + Layout(r, Popped(st), Out, false))
      && Layout([c] + r, st, Out, false) == [10] + Layout([c] + r, st, Out, true)
    ensures c == 44 && InObject(st) ==>
      Layout([c] + r, st, Out, false) == [44] + ([10] + (Repeat(9, |st|) + Layout(r, st, Out, false)))
    ensures c == 44 && !InObject(st) ==> Layout([c] + r, st, Out, false) == [44] + ([32] + Layout(r, st, Out, false))
    ensures c == 58 ==> Layout([c] + r, st, Out, false) == [58] + ([9] + Layout(r, st, Out, false))
    ensures c == 44 || c == 58 || c == 91 || c == 93 || c == 123 || c == 125 ==> Tight([c] + r, Out) == Tight(r, Out)
  {
    hide Popped, InObject, Repeat;
    Uncons(c, r);
    var pop := Repeat(9, |Popped(st)|) + ([125] + Layout(r, Popped(st), Out, false));
    assert [] + pop == pop;
  }

  // ---- values ----

  lemma ScalarLaid(v: Json, r: Bytes, st: seq<bool>)
    requires !v.Array? && !v.Object?
    ensures Layout(Render(v, |st|, false) + r, st, Out, false) == Render(v, |st|, true) + Layout(r, st, Out, false)
    ensures Tight(Render(v, |st|, false) + r, Out) == Tight(r, Out)
  {
    hide Layout, Tight, Quoted, IntegerText;
    match v
    case String(s) => QuotedLaid(CString(s), r, st);
    case Number(d) =>
      NumberStill(d.mant);
      StillLaid(IntegerText(d.mant), r, st);
    case Null => StillLaid(NULL_WORD, r, st);
    case False => StillLaid(FALSE_WORD, r, st);
    case True => StillLaid(TRUE_WORD, r, st);
  }

  lemma NumberStill(n: int)
    ensures Still(IntegerText(n))
  {
    hide Radix;
    var s := Radix(if n < 0 then -n else n, 10);
    assert forall c <- s :: 48 <= c <= 57;
  }

  lemma {:induction false} ValueLaid(v: Json, r: Bytes, st: seq<bool>)
    ensures Layout(Render(v, |st|, false) + r, st, Out, false) == Render(v, |st|, true) + Layout(r, st, Out, false)
    ensures Tight(Render(v, |st|, false) + r, Out) == Tight(r, Out)
    decreases v, 1
  {
    match v
    case Array(c) => ArrayLaid(c, r, st);
    case Object(c) => ObjectLaid(c, r, st);
    case _ => ScalarLaid(v, r, st);
  }

  lemma {:induction false} ArrayLaid(c: Chain, r: Bytes, st: seq<bool>)
    ensures var v := Array(c);
      && Layout(Render(v, |st|, false) + r, st, Out, false) == Render(v, |st|, true) + Layout(r, st, Out, false)
      && Tight(Render(v, |st|, false) + r, Out) == Tight(r, Out)
    decreases c, 3
  {
    hide Layout, Tight, RenderItems;
    var up, d := st + [false], |st| + 1;
    var m := Layout(r, st, Out, false);
    assert Popped(up) == st && !InObject(up);
    Carry3([91], RenderItems(c, d, false), [93], r);
    Carry3([91], RenderItems(c, d, true), [93], m);
    MarkLaid(91, RenderItems(c, d, false) + ([93] + r), st);
    ItemsLaid(c, [93] + r, up);
    MarkLaid(93, r, up);
  }

  lemma {:induction false} ItemsLaid(c: Chain, r: Bytes, st: seq<bool>)
    requires !InObject(st)
    ensures Layout(RenderItems(c, |st|, false) + r, st, Out, false)
      == RenderItems(c, |st|, true) + Layout(r, st, Out, false)
    ensures Tight(RenderItems(c, |st|, false) + r, Out) == Tight(r, Out)
    decreases c, 2
  {
    hide Layout, Tight, Render, InObject;
    if c == End {
      assert [] + r == r && [] + Layout(r, st, Out, false) == Layout(r, st, Out, false);
    } else {
      var d := |st|;
      var rest, laid := RenderItems(c.next, d, false), RenderItems(c.next, d, true);
      var m := Layout(r, st, Out, false);
      ItemsLaid(c.next, r, st);
      Carry3(Render(c.item, d, false), ItemSeparator(c.next, false), rest, r);
      Carry3(Render(c.item, d, true), ItemSeparator(c.next, true), laid, m);
      ValueLaid(c.item, ItemSeparator(c.next, false) + (rest + r), st);
      SeparatorLaid(c.next, rest + r, st);
    }
  }

  lemma SeparatorLaid(next: Chain, r: Bytes, st: seq<bool>)
    requires !InObject(st)
    ensures Layout(ItemSeparator(next, false) + r, st, Out, false)
      == ItemSeparator(next, true) + Layout(r, st, Out, false)
    ensures Tight(ItemSeparator(next, false) + r, Out) == Tight(r, Out)
  {
    hide Layout, Tight, InObject;
    var m := Layout(r, st, Out, false);
    if next == End {
      assert [] + r == r && [] + m == m;
    } else {
      assert [44] + [] + r == [44] + r;
      MarkLaid(44, r, st);
      Carry2([44], [32], m);
    }
  }

  lemma {:induction false} ObjectLaid(c: Chain, r: Bytes, st: seq<bool>)
    ensures var v := Object(c);
      && Layout(Render(v, |st|, false) + r, st, Out, false) == Render(v, |st|, true) + Layout(r, st, Out, false)
      && Tight(Render(v, |st|, false) + r, Out) == Tight(r, Out)
    decreases c, 3
  {
    hide Layout, Tight, RenderMembers, Repeat;
    var up, d := st + [true], |st| + 1;
    var m := Layout(r, st, Out, false);
    assert Popped(up) == st && InObject(up);
    CompactObject(c, |st|, r);
    FormattedObject(c, |st|, m);
    MarkLaid(123, RenderMembers(c, d, false) + ([125] + r), st);
    MarkLaid(125, r, up);
    if c == End {
      NoMembers(d);
      assert [] + ([125] + r) == [125] + r;
      assert [] + (Repeat(9, |st|) + ([125] + m)) == Repeat(9, |st|) + ([125] + m);
    } else {
      MembersLaid(c, r, up);
    }
  }

  lemma NoMembers(d: nat)
    ensures RenderMembers(End, d, false) == [] && RenderMembers(End, d, true) == []
  {
  }

  lemma CompactObject(c: Chain, d: nat, r: Bytes)
    ensures Render(Object(c), d, false) + r == [123] + (RenderMembers(c, d + 1, false) + ([125] + r))
  {
    hide RenderMembers;
    var members := RenderMembers(c, d + 1, false);
    assert [] + (members + ([] + [125])) == members + [125];
    Carry3([123], members, [125], r);
  }

  lemma FormattedObject(c: Chain, d: nat, m: Bytes)
    ensures Render(Object(c), d, true) + m
      == [123] + ([10] + (RenderMembers(c, d + 1, true) + (Repeat(9, d) + ([125] + m))))
  {
    hide RenderMembers, Repeat;
    Carry5([123], [10], RenderMembers(c, d + 1, true), Repeat(9, d), [125], m);
  }

  /** One member without its tabs, in both layouts. */
  function Entry(c: Chain, d: nat, fmt: bool): Bytes
    requires c != End
  {
    Quoted(NameBytes(c.name)) + ([58] + (Only(fmt, [9]) + Render(c.item, d, fmt)))
  }

  lemma {:induction false} EntryLaid(c: Chain, r: Bytes, st: seq<bool>)
    requires c != End
    ensures Layout(Entry(c, |st|, false) + r, st, Out, false) == Entry(c, |st|, true) + Layout(r, st, Out, false)
    ensures Layout(Entry(c, |st|, false) + r, st, Out, true)
      == Repeat(9, |st|) + (Entry(c, |st|, true) + Layout(r, st, Out, false))
    ensures Tight(Entry(c, |st|, false) + r, Out) == Tight(r, Out)
    decreases c, 1
  {
    hide Layout, Tight, Render, Quoted, Repeat;
    ValueLaid(c.item, r, st);
    var q, v, w, m := Quoted(NameBytes(c.name)), Render(c.item, |st|, false), Render(c.item, |st|, true),
                      Layout(r, st, Out, false);
    assert [] + v == v;
    Carry3(q, [58], v, r);
    Carry4(q, [58], [9], w, m);
    QuotedLaid(NameBytes(c.name), [58] + (v + r), st);
    MarkLaid(58, v + r, st);
  }

  lemma MembersOne(c: Chain, d: nat, x: Bytes)
    requires c != End
    ensures RenderMembers(c, d, false) + x
      == Entry(c, d, false) + ((if c.next == End then [] else [44]) + (RenderMembers(c.next, d, false) + x))
    ensures RenderMembers(c, d, true) + x
      == Repeat(9, d) + (Entry(c, d, true)
         + ((if c.next == End then [] else [44]) + ([10] + (RenderMembers(c.next, d, true) + x))))
  {
    MembersFirst(c, d, false);
    MembersFirst(c, d, true);
    hide *;
    var q, v, w, tabs := Quoted(NameBytes(c.name)), Render(c.item, d, false), Render(c.item, d, true), Repeat(9, d);
    var rest, laid := RenderMembers(c.next, d, false), RenderMembers(c.next, d, true);
    var comma: Bytes := if c.next == End then [] else [44];
    Carry4(q, [58], v, comma + rest, x);
    Carry2(comma, rest, x);
    Carry3(q, [58], v, comma + (rest + x));
    Carry2(tabs, q + ([58] + ([9] + (w + (comma + ([10] + laid))))), x);
    Carry5(q, [58], [9], w, comma + ([10] + laid), x);
    Carry3(comma, [10], laid, x);
    Carry4(q, [58], [9], w, comma + ([10] + (laid + x)));
  }

  lemma MembersFirst(c: Chain, d: nat, fmt: bool)
    requires c != End
    ensures var q, comma: Bytes := Quoted(NameBytes(c.name)), if c.next == End then [] else [44];
      var v, rest := Render(c.item, d, fmt), RenderMembers(c.next, d, fmt);
      && RenderMembers(c, d, fmt) == (if fmt then Repeat(9, d) + (q + ([58] + ([9] + (v + (comma + ([10] + rest))))))
                                      else q + ([58] + (v + (comma + rest))))
      && Entry(c, d, fmt) == if fmt then q + ([58] + ([9] + v)) else q + ([58] + v)
  {
    hide Render, Quoted, Repeat;
    var q, comma: Bytes := Quoted(NameBytes(c.name)), if c.next == End then [] else [44];
    var v, rest := Render(c.item, d, fmt), RenderMembers(c.next, d, fmt);
    if fmt {
      Carry4(Repeat(9, d), q, [58], [9], v + ((comma + [10]) + rest));
      Carry2(comma, [10], rest);
    } else {
      assert [] + (q + ([58] + [])) == q + [58] && comma + [] == comma && [] + v == v;
      Carry2(q, [58], v + (comma + rest));
    }
  }

  /** From the first name on, the tabs in front of it come with the opening bracket or the comma. */
  lemma {:induction false} MembersLaid(c: Chain, r: Bytes, st: seq<bool>)
    requires c != End && InObject(st)
    ensures var d, m := |st|, Layout(r, Popped(st), Out, false);
      var text := RenderMembers(c, d, false) + ([125] + r);
      var laid := RenderMembers(c, d, true) + (Repeat(9, d - 1) + ([125] + m));
      && Repeat(9, d) + Layout(text, st, Out, false) == laid && Layout(text, st, Out, true) == laid
      && Tight(text, Out) == Tight(r, Out)
    decreases c, 2
  {
    assert |st| > 0;
    hide Layout, Tight, Render, RenderMembers, Repeat, Entry, InObject;
    var d, m := |st|, Layout(r, Popped(st), Out, false);
    var close, shut := [125] + r, Repeat(9, d - 1) + ([125] + m);
    MembersOne(c, d, close);
    MembersOne(c, d, shut);
    MarkLaid(125, r, st);
    if c.next == End {
      NoMembers(d);
      assert [] + ([] + close) == close && [] + ([10] + ([] + shut)) == [10] + shut;
      EntryLaid(c, close, st);
    } else {
      var rest := RenderMembers(c.next, d, false) + close;
      MembersLaid(c.next, r, st);
      MarkLaid(44, rest, st);
      EntryLaid(c, [44] + rest, st);
    }
  }

  /** The formatted text of a tree is its unformatted text, laid out, and that text is tight. */
  lemma FormattedLayout(v: Json)
    ensures Render(v, 0, true) == Layout(Render(v, 0, false), [], Out, false)
    ensures Tight(Render(v, 0, false), Out)
  {
    hide Layout, Tight, Render;
    ValueLaid(v, [], []);
    NothingLaid();
    assert Render(v, 0, false) + [] == Render(v, 0, false) && Render(v, 0, true) + [] == Render(v, 0, true);
  }

  lemma NothingLaid()
    ensures Layout([], [], Out, false) == [] && Tight([], Out)
  {
  }

  // ---- strings are as short as can be ----

  /** A piece as section 7 of RFC 8259 has it. */
  predicate Strict(p: Piece) {
    GoodPiece(p) && !p.Lone? && !p.BadCode? && (p.Plain? ==> p.b >= 32 && p.b != 34)
  }

  predicate AllStrict(ps: seq<Piece>) { forall p <- ps :: Strict(p) }

  lemma {:induction false} EscapeJoin(a: Bytes, b: Bytes)
    ensures Escape(a + b) == Escape(a) + Escape(b)
  {
    if a == [] {
      assert a + b == b;
    } else {
      assert (a + b)[1..] == a[1..] + b;
      EscapeJoin(a[1..], b);
    }
  }

  lemma {:induction false} HighBytes(b: Bytes)
    requires forall c <- b :: c >= 0x80
    ensures |Escape(b)| == |b|
  {
    if b != [] {
      assert b[0] in b && forall c <- b[1..] :: c in b;
      HighBytes(b[1..]);
    }
  }

  lemma OneByte(c: byte)
    ensures Escape([c]) == EscapeByte(c)
  {
    assert [c][1..] == [];
  }

  lemma Utf8Escaped(cp: nat)
    requires cp <= 0x10FFFF
    ensures |Escape(Utf8(cp))| <= 6
  {
    if cp < 0x80 {
      OneByte(cp);
    } else {
      HighBytes(Utf8(cp));
    }
  }

  lemma PieceLonger(p: Piece)
    requires Strict(p)
    ensures |PieceText(p)| >= |Escape(PieceBytes(p))|
  {
    hide Utf8, SpellsUnit, Escape;
    match p
    case Plain(b) => OneByte(b);
    case Escaped(c) => OneByte(Named(c).value);
    case Code(u, h) => UnitSize(h, u); Utf8Escaped(u);
    case CodePair(cp, hi, lo) =>
      UnitSize(hi, 0xD800 + (cp - 0x10000) / 1024);
      UnitSize(lo, 0xDC00 + (cp - 0x10000) % 1024);
      Utf8Escaped(cp);
    case _ =>
  }

  /** No well-formed literal of a string is shorter than the printed one. */
  lemma {:induction false} EscapeShortest(ps: seq<Piece>)
    requires AllStrict(ps) && GoodPieces(ps)
    ensures |PiecesText(ps)| >= |Escape(PiecesBytes(ps))|
  {
    hide Escape, PieceText, PieceBytes, Strict, GoodPiece;
    if ps == [] {
      NothingEscaped();
    } else {
      assert ps[0] in ps;
      PieceLonger(ps[0]);
      EscapeShortest(ps[1..]);
      EscapeJoin(PieceBytes(ps[0]), PiecesBytes(ps[1..]));
    }
  }

  lemma NothingEscaped()
    ensures Escape([]) == []
  {
  }

  /** Control characters without a letter of their own are printed with lower-case digits. */
  lemma ControlEscaped(c: byte)
    requires c < 32 && c !in {8, 9, 10, 12, 13}
    ensures EscapeByte(c)
      == [92, 117, 48, 48, 48 + c as int / 16, if c as int % 16 < 10 then 48 + c as int % 16 else 87 + c as int % 16]
  {
  }

  /** Text and names are printed, and come back, up to their first NUL. */
  lemma CutAtNul(a: Bytes, b: Bytes, v: Json, d: nat, fmt: bool)
    requires 0 !in a
    ensures Render(String(a + [0] + b), d, fmt) == Render(String(a), d, fmt) && Norm(String(a + [0] + b)) == String(a)
    ensures var o, p := Object(Node(Some(a + [0] + b), v, End)), Object(Node(Some(a), v, End));
      Render(o, d, fmt) == Render(p, d, fmt) && Norm(o) == Norm(p) == Object(Node(Some(a), Norm(v), End))
  {
    hide *;
    CutCString(a, b);
    OneText(a + [0] + b, a, d, fmt);
    OneMember(Some(a + [0] + b), v, d, fmt);
    OneMember(Some(a), v, d, fmt);
    CutName(a + [0] + b);
    CutName(a);
  }

  lemma OneText(s: Bytes, a: Bytes, d: nat, fmt: bool)
    requires CString(s) == CString(a) == a
    ensures Render(String(s), d, fmt) == Render(String(a), d, fmt) && Norm(String(s)) == String(a)
  {
    hide Quoted, CString;
  }

  lemma CutName(s: Bytes)
    ensures NameBytes(Some(s)) == CString(s) && NameBytes(None) == []
  {
  }

  lemma OneMember(name: Option<Bytes>, v: Json, d: nat, fmt: bool)
    ensures var o := Object(Node(name, v, End));
      && Render(o, d, fmt) == [123] + (Only(fmt, [10]) + ((Tabs(fmt, d + 1) + (Quoted(NameBytes(name))
           + ([58] + Only(fmt, [9])))) + (Render(v, d + 1, fmt) + Only(fmt, [10])) + (Tabs(fmt, d) + [125])))
      && Norm(o) == Object(Node(Some(NameBytes(name)), Norm(v), End))
  {
    hide Quoted, NameBytes, Only, Tabs;
    var r := Render(v, d + 1, fmt);
    assert RenderMembers(End, d + 1, fmt) == [] && NormMembers(End) == End;
    assert NormMembers(Node(name, v, End)) == Node(Some(NameBytes(name)), Norm(v), NormMembers(End));
    assert r + (MemberEnd(End, fmt) + []) == r + Only(fmt, [10]);
  }

  /** A name that is missing is printed, and comes back, as the empty one. */
  lemma Nameless(v: Json, d: nat)
    ensures var o := Object(Node(None, v, End));
      && Render(o, d, false) == [123, 34, 34, 58] + Render(v, d + 1, false) + [125]
      && Norm(o) == Object(Node(Some([]), Norm(v), End))
  {
    hide Render, Norm;
    NothingEscaped();
    CutName([]);
    OneMember(None, v, d, false);
  }

  lemma {:induction false} CutCString(a: Bytes, b: Bytes)
    requires 0 !in a
    ensures CString(a + [0] + b) == CString(a) == a
  {
    if a == [] {
      assert [] + [0] + b == [0] + b;
    } else {
      assert (a + [0] + b)[1..] == a[1..] + [0] + b;
      CutCString(a[1..], b);
    }
  }
}
