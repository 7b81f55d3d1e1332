/** The text cJSON prints for a tree, as a pure function of the tree, the depth and the format flag. */
module CJsonRender {
  import opened Text
  import opened CJsonValue
  import opened CJsonString
  import opened CJsonNumber
  import opened CJsonParse

  function Only(fmt: bool, s: Bytes): Bytes { if fmt then s else [] }

  function Tabs(fmt: bool, n: nat): Bytes { Only(fmt, Repeat(TAB, n)) }

  function Render(v: Json, depth: nat, fmt: bool): (r: Bytes)
    ensures r != []
  {
    match v
    case Null => NULL_WORD
    case False => FALSE_WORD
    case True => TRUE_WORD
    case Number(d) => IntegerText(d.mant)
    case String(s) => Quoted(CString(s))
    case Array(c) => [LBRACKET] + (RenderItems(c, depth + 1, fmt) + [RBRACKET])
    case Object(c) =>
      [LBRACE] + (Only(fmt, [NEWLINE]) + (RenderMembers(c, depth + 1, fmt) + (Tabs(fmt, depth) + [RBRACE])))
  }

  function RenderItems(c: Chain, depth: nat, fmt: bool): Bytes {
    match c
    case End => []
    case Node(_, v, next) => Render(v, depth, fmt) + (ItemSeparator(next, fmt) + RenderItems(next, depth, fmt))
  }

  function ItemSeparator(next: Chain, fmt: bool): Bytes {
    if next == End then [] else [COMMA] + Only(fmt, [SPACE])
  }

  /** Everything of a member's line up to its value. */
  function MemberHead(name: Option<Bytes>, depth: nat, fmt: bool): Bytes {
    Tabs(fmt, depth) + (Quoted(NameBytes(name)) + ([COLON] + Only(fmt, [TAB])))
  }

  function MemberEnd(next: Chain, fmt: bool): Bytes {
    (if next == End then [] else [COMMA]) + Only(fmt, [NEWLINE])
  }

  function RenderMembers(c: Chain, depth: nat, fmt: bool): Bytes {
    match c
    case End => []
    case Node(name, v, next) =>
      MemberHead(name, depth, fmt)
      + (Render(v, depth, fmt) + (MemberEnd(next, fmt) + RenderMembers(next, depth, fmt)))
  }

  // ---- no rendering contains a NUL, so update_offset's strlen finds its end ----

  lemma {:induction false} EscapeNulFree(s: Bytes)
    requires NUL !in s
    ensures NUL !in Escape(s)
  {
    if s != [] {
      EscapeNulFree(s[1..]);
    }
  }

  lemma TabsNulFree(fmt: bool, n: nat)
    ensures NUL !in Tabs(fmt, n)
  {
  }

  lemma {:induction false} RenderNulFree(v: Json, depth: nat, fmt: bool)
    ensures NUL !in Render(v, depth, fmt)
  {
    hide Escape, RenderItems, RenderMembers, Tabs;
    TabsNulFree(fmt, depth);
    match v
    case String(s) => EscapeNulFree(CString(s));
    case Array(c) => RenderItemsNulFree(c, depth + 1, fmt);
    case Object(c) => RenderMembersNulFree(c, depth + 1, fmt);
    case _ =>
  }

  lemma {:induction false} RenderItemsNulFree(c: Chain, depth: nat, fmt: bool)
    ensures NUL !in RenderItems(c, depth, fmt)
  {
    match c
    case End =>
    case Node(_, v, next) =>
      RenderNulFree(v, depth, fmt);
      RenderItemsNulFree(next, depth, fmt);
  }

  lemma {:induction false} RenderMembersNulFree(c: Chain, depth: nat, fmt: bool)
    ensures NUL !in RenderMembers(c, depth, fmt)
  {
    hide Escape, Render, Tabs;
    TabsNulFree(fmt, depth);
    match c
    case End =>
    case Node(name, v, next) =>
      EscapeNulFree(NameBytes(name));
      RenderNulFree(v, depth, fmt);
      RenderMembersNulFree(next, depth, fmt);
  }
}
