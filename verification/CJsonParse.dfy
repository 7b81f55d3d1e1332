/**
 The grammar cJSON accepts, as functions on the suffix of the text at the cursor. A result
 carries the suffix at which the cursor is left, on success and on failure alike.
 */
module CJsonParse {
  import opened Text
  import opened Digits
  import opened CJsonValue
  import opened CJsonString
  import opened CJsonNumber

  const NESTING_LIMIT: nat := 1000

  const NULL_WORD: Bytes := [110, 117, 108, 108]
  const FALSE_WORD: Bytes := [102, 97, 108, 115, 101]
  const TRUE_WORD: Bytes := [116, 114, 117, 101]
  const BOM: Bytes := [0xEF, 0xBB, 0xBF]

  /** buffer_skip_whitespace: at the very end the cursor backs up onto the last byte. */
  function SkipSpace(s: Bytes): (r: Bytes)
    requires Terminated(s)
    ensures Terminated(r) && |r| <= |s|
    ensures r[0] > 32 || |r| == 1
  {
    if s[0] > 32 || |s| == 1 then s else SkipSpace(s[1..])
  }

  /** Whether s starts with the NUL-free word w; it then goes on after it. */
  predicate Word(s: Bytes, w: Bytes): (b: bool)
    requires Terminated(s) && w != [] && NUL !in w
    ensures b ==> |w| < |s| && Terminated(s[|w|..]) && s[0] == w[0]
  {
    StartsWith(s, w) && (StartsWithLength(s, w); true)
  }

  function ParseValue(s: Bytes, depth: nat): (p: Parsed<Json>)
    requires Terminated(s)
    ensures |p.rest| <= |s| && (p.Ok? ==> Terminated(p.rest) && |p.rest| < |s|)
    decreases |s|, 2
  {
    if Word(s, NULL_WORD) then Ok(Null, s[4..])
    else if Word(s, FALSE_WORD) then Ok(False, s[5..])
    else if Word(s, TRUE_WORD) then Ok(True, s[4..])
    else if s[0] == QUOTE then
      match ParseString(s)
      case Ok(str, r) => Ok(String(str), r)
      case Fail(r) => Fail(r)
    else if s[0] == MINUS || IsDigit(s[0]) then
      match ParseNumber(s)
      case Ok(d, r) => Ok(Number(d), r)
      case Fail(r) => Fail(r)
    else if s[0] == LBRACKET then ParseArray(s, depth)
    else if s[0] == LBRACE then ParseObject(s, depth)
    else Fail(s)
  }

  function ParseArray(s: Bytes, depth: nat): (p: Parsed<Json>)
    requires Terminated(s) && s[0] == LBRACKET
    ensures |p.rest| <= |s| && (p.Ok? ==> Terminated(p.rest) && |p.rest| < |s|)
    decreases |s|, 1
  {
    if depth >= NESTING_LIMIT then Fail(s)
    else
      var t := SkipSpace(s[1..]);
      if t[0] == RBRACKET then Ok(Array(End), t[1..])
      else
        Contained(false, ParseItems(t, depth + 1))
  }

  /** The comma-separated items up to and including the closing bracket. */
  function ParseItems(s: Bytes, depth: nat): (p: Parsed<Chain>)
    requires Terminated(s)
    ensures |p.rest| <= |s| && (p.Ok? ==> Terminated(p.rest) && |p.rest| < |s|)
    decreases |s|, 3
  {
    match ParseValue(s, depth)
    case Fail(r) => Fail(r)
    case Ok(v, r) =>
      var t := SkipSpace(r);
      if t[0] == COMMA then
        var u := SkipSpace(t[1..]);
        var p := ParseItems(u, depth);
        Linked(None, v, p)
      else if t[0] == RBRACKET then Ok(Node(None, v, End), t[1..])
      else Fail(t)
  }

  function ParseObject(s: Bytes, depth: nat): (p: Parsed<Json>)
    requires Terminated(s) && s[0] == LBRACE
    ensures |p.rest| <= |s| && (p.Ok? ==> Terminated(p.rest) && |p.rest| < |s|)
    decreases |s|, 1
  {
    if depth >= NESTING_LIMIT then Fail(s)
    else
      var t := SkipSpace(s[1..]);
      if t[0] == RBRACE then Ok(Object(End), t[1..])
      else
        Contained(true, ParseMembers(t, depth + 1))
  }

  /** A member's name and its colon: the suffix at which the member's value starts. */
  function ParseName(s: Bytes): (p: Parsed<Bytes>)
    requires Terminated(s)
    ensures |p.rest| <= |s| && (p.Ok? ==> Terminated(p.rest) && |p.rest| < |s|)
  {
    match ParseString(s)
    case Fail(r) => Fail(r)
    case Ok(name, r) =>
      var t := SkipSpace(r);
      if t[0] != COLON then Fail(t)
      else
        var u := SkipSpace(t[1..]);
        Ok(name, u)
  }

  /** One member, its name and value, up to the separator after it. */
  function ParseMember(s: Bytes, depth: nat): (p: Parsed<(Bytes, Json)>)
    requires Terminated(s)
    ensures |p.rest| <= |s| && (p.Ok? ==> Terminated(p.rest) && |p.rest| < |s|)
    decreases |s|, 3
  {
    match ParseName(s)
    case Fail(r) => Fail(r)
    case Ok(name, u) =>
      match ParseValue(u, depth)
      case Fail(r) => Fail(r)
      case Ok(v, r) => Ok((name, v), SkipSpace(r))
  }

  function ParseMembers(s: Bytes, depth: nat): (p: Parsed<Chain>)
    requires Terminated(s)
    ensures |p.rest| <= |s| && (p.Ok? ==> Terminated(p.rest) && |p.rest| < |s|)
    decreases |s|, 4
  {
    match ParseMember(s, depth)
    case Fail(r) => Fail(r)
    case Ok(m, t) =>
      if t[0] == COMMA then
        var w := SkipSpace(t[1..]);
        Linked(Some(m.0), m.1, ParseMembers(w, depth))
      else if t[0] == RBRACE then Ok(Node(Some(m.0), m.1, End), t[1..])
      else Fail(t)
  }

  function Contained(named: bool, p: Parsed<Chain>): Parsed<Json> {
    match p
    case Ok(c, r) => Ok(if named then Object(c) else Array(c), r)
    case Fail(r) => Fail(r)
  }

  function Linked(name: Option<Bytes>, v: Json, p: Parsed<Chain>): Parsed<Chain> {
    match p
    case Ok(c, r) => Ok(Node(name, v, c), r)
    case Fail(r) => Fail(r)
  }

  /** skip_utf8_bom, which looks for the mark only in texts of at least four bytes. */
  function SkipBom(s: Bytes): (r: Bytes)
    requires Terminated(s)
    ensures Terminated(r) && |r| <= |s|
  {
    if |s| > 4 && StartsWith(s, BOM) then s[3..] else s
  }

  /** A parse of the whole text has nothing but space behind the value. */
  function Closed(p: Parsed<Json>, whole: bool): (q: Parsed<Json>)
    requires p.Ok? ==> Terminated(p.rest)
    ensures |q.rest| <= |p.rest| && (q.Ok? ==> Terminated(q.rest))
  {
    if p.Ok? && whole then
      var u := SkipSpace(p.rest);
      if u[0] != NUL then Fail(u) else Ok(p.value, u)
    else p
  }

  /** cJSON_ParseWithOpts on the C string `text`. */
  function Parse(text: Bytes, whole: bool): (p: Parsed<Json>)
    requires NUL !in text
    ensures |p.rest| <= |text| + 1 && (p.Ok? ==> Terminated(p.rest))
  {
    Closed(ParseValue(SkipSpace(SkipBom(text + [NUL])), 0), whole)
  }

  /** The error position cJSON_ParseWithLengthOpts reports. */
  function ErrorPosition(text: Bytes, rest: Bytes): (pos: nat)
    requires |rest| <= |text| + 1
    ensures pos <= |text|
  {
    if rest != [] then |text| + 1 - |rest| else |text|
  }

  // ---- the functions above, one step at a time on text that starts with a known byte ----

  lemma WordRead(w: Bytes, v: Json, d: nat, r: Bytes)
    requires Terminated(r)
    requires (w == NULL_WORD && v == Null) || (w == FALSE_WORD && v == False) || (w == TRUE_WORD && v == True)
    ensures Terminated(w + r) && ParseValue(w + r, d) == Ok(v, r)
  {
    StartsWithPrefix(w, r);
    assert (w + r)[0] == w[0];
    assert (w + r)[|w|..] == r;
  }

  lemma ArrayStep(t: Bytes, depth: nat)
    requires Terminated(t) && depth < NESTING_LIMIT
    ensures Terminated([LBRACKET] + t)
    ensures SkipSpace(t)[0] == RBRACKET
        ==> ParseValue([LBRACKET] + t, depth) == Ok(Array(End), SkipSpace(t)[1..])
    ensures SkipSpace(t)[0] != RBRACKET
        ==> ParseValue([LBRACKET] + t, depth) == Contained(false, ParseItems(SkipSpace(t), depth + 1))
  {
    hide ParseString, ParseNumber, Word, SkipSpace, ParseItems;
    Uncons(LBRACKET, t);
  }

  lemma ObjectStep(t: Bytes, depth: nat)
    requires Terminated(t) && depth < NESTING_LIMIT
    ensures Terminated([LBRACE] + t)
    ensures SkipSpace(t)[0] == RBRACE
        ==> ParseValue([LBRACE] + t, depth) == Ok(Object(End), SkipSpace(t)[1..])
    ensures SkipSpace(t)[0] != RBRACE
        ==> ParseValue([LBRACE] + t, depth) == Contained(true, ParseMembers(SkipSpace(t), depth + 1))
  {
    hide ParseString, ParseNumber, Word, SkipSpace, ParseMembers;
    Uncons(LBRACE, t);
  }

  lemma TooDeep(b: byte, t: Bytes, depth: nat)
    requires Terminated(t) && depth >= NESTING_LIMIT && (b == LBRACKET || b == LBRACE)
    ensures Terminated([b] + t) && ParseValue([b] + t, depth) == Fail([b] + t)
  {
    hide ParseString, ParseNumber, Word;
    Uncons(b, t);
  }

  lemma NoSpace(s: Bytes)
    requires Terminated(s) && (s[0] > 32 || |s| == 1)
    ensures SkipSpace(s) == s
  {
  }

  lemma ItemFails(s: Bytes, depth: nat)
    requires Terminated(s) && ParseValue(s, depth).Fail?
    ensures ParseItems(s, depth) == Fail(ParseValue(s, depth).rest)
  {
    hide ParseValue;
  }

  lemma MemberFails(s: Bytes, depth: nat)
    requires Terminated(s) && ParseName(s).Ok? && ParseValue(ParseName(s).rest, depth).Fail?
    ensures ParseMembers(s, depth) == Fail(ParseValue(ParseName(s).rest, depth).rest)
  {
    hide ParseValue, ParseName;
  }

  lemma EntryFails(s: Bytes, depth: nat)
    requires Terminated(s) && ParseMember(s, depth).Fail?
    ensures ParseMembers(s, depth) == Fail(ParseMember(s, depth).rest)
  {
    hide ParseMember;
  }

  lemma LastItem(s: Bytes, depth: nat, v: Json, r: Bytes)
    requires Terminated(s) && Terminated(r)
    requires ParseValue(s, depth) == Ok(v, [RBRACKET] + r)
    ensures ParseItems(s, depth) == Ok(Node(None, v, End), r)
  {
    hide ParseString, ParseNumber, ParseValue;
    Uncons(RBRACKET, r);
  }

  lemma NextItem(s: Bytes, depth: nat, v: Json, t: Bytes)
    requires Terminated(s) && Terminated(t)
    requires ParseValue(s, depth) == Ok(v, [COMMA] + t)
    ensures ParseItems(s, depth) == Linked(None, v, ParseItems(SkipSpace(t), depth))
  {
    hide ParseString, ParseNumber, ParseValue, ParseName;
    Uncons(COMMA, t);
  }

  lemma LastMember(s: Bytes, depth: nat, name: Bytes, u: Bytes, v: Json, after: Bytes, r: Bytes)
    requires Terminated(s) && Terminated(u) && Terminated(after) && Terminated(r)
    requires ParseName(s) == Ok(name, u) && ParseValue(u, depth) == Ok(v, after)
    requires SkipSpace(after) == [RBRACE] + r
    ensures ParseMembers(s, depth) == Ok(Node(Some(name), v, End), r)
  {
    hide ParseString, ParseNumber, ParseValue, ParseName;
    Uncons(RBRACE, r);
  }

  lemma NextMember(s: Bytes, depth: nat, name: Bytes, u: Bytes, v: Json, t: Bytes)
    requires Terminated(s) && Terminated(u) && Terminated(t)
    requires ParseName(s) == Ok(name, u) && ParseValue(u, depth) == Ok(v, [COMMA] + t)
    ensures ParseMembers(s, depth) == Linked(Some(name), v, ParseMembers(SkipSpace(t), depth))
  {
    hide ParseString, ParseNumber, ParseValue, ParseName;
    Uncons(COMMA, t);
  }

  lemma ItemsUnfold(s: Bytes, d: nat)
    requires Terminated(s) && ParseValue(s, d).Ok?
    ensures var v, t := ParseValue(s, d).value, SkipSpace(ParseValue(s, d).rest);
      && (t[0] == COMMA ==> Terminated(t[1..])
                            && ParseItems(s, d) == Linked(None, v, ParseItems(SkipSpace(t[1..]), d)))
      && (t[0] == RBRACKET ==> ParseItems(s, d) == Ok(Node(None, v, End), t[1..]))
      && (t[0] != COMMA && t[0] != RBRACKET ==> ParseItems(s, d) == Fail(t))
  {
    hide ParseValue, SkipSpace;
  }

  lemma ItemsHead(s: Bytes, d: nat)
    requires Terminated(s) && ParseItems(s, d).Ok?
    ensures ParseValue(s, d).Ok?
  {
    hide ParseValue, SkipSpace;
  }

  lemma ArrayUnfold(s: Bytes, d: nat)
    requires Terminated(s) && s[0] == LBRACKET
    ensures Terminated(s[1..])
    ensures var t := SkipSpace(s[1..]);
      ParseValue(s, d) ==
        if d >= NESTING_LIMIT then Fail(s)
        else if t[0] == RBRACKET then Ok(Array(End), t[1..])
        else Contained(false, ParseItems(t, d + 1))
  {
    hide SkipSpace, ParseItems, ParseString, ParseNumber, StartsWith;
  }

  lemma ObjectUnfold(s: Bytes, d: nat)
    requires Terminated(s) && s[0] == LBRACE
    ensures Terminated(s[1..])
    ensures var t := SkipSpace(s[1..]);
      ParseValue(s, d) ==
        if d >= NESTING_LIMIT then Fail(s)
        else if t[0] == RBRACE then Ok(Object(End), t[1..])
        else Contained(true, ParseMembers(t, d + 1))
  {
    hide SkipSpace, ParseMembers, ParseString, ParseNumber, StartsWith;
  }

  lemma NameUnfold(s: Bytes)
    requires Terminated(s)
    ensures ParseName(s).Ok? ==> s[0] == QUOTE && ParseString(s).Ok?
    ensures ParseString(s).Ok? ==>
      (var t := SkipSpace(ParseString(s).rest);
       ParseName(s) == if t[0] != COLON then Fail(t) else Ok(ParseString(s).value, SkipSpace(t[1..])))
  {
    hide SkipSpace, ClosingQuote, Unescape;
  }

  lemma MembersHead(s: Bytes, d: nat)
    requires Terminated(s) && ParseMembers(s, d).Ok?
    ensures ParseName(s).Ok? && ParseValue(ParseName(s).rest, d).Ok? && s[0] == QUOTE && ParseString(s).Ok?
  {
    hide ParseValue, SkipSpace, ParseName;
    NameUnfold(s);
  }

  lemma MembersUnfold(s: Bytes, d: nat)
    requires Terminated(s) && ParseName(s).Ok? && ParseValue(ParseName(s).rest, d).Ok?
    ensures var name, v, t := ParseName(s).value, ParseValue(ParseName(s).rest, d).value,
                              SkipSpace(ParseValue(ParseName(s).rest, d).rest);
      && (t[0] == COMMA ==> Terminated(t[1..])
                            && ParseMembers(s, d) == Linked(Some(name), v, ParseMembers(SkipSpace(t[1..]), d)))
      && (t[0] == RBRACE ==> ParseMembers(s, d) == Ok(Node(Some(name), v, End), t[1..]))
      && (t[0] != COMMA && t[0] != RBRACE ==> ParseMembers(s, d) == Fail(t))
  {
    hide ParseValue, SkipSpace, ParseName;
  }

  lemma ValueHead(s: Bytes, d: nat)
    requires Terminated(s) && ParseValue(s, d).Ok?
    ensures 32 < s[0] < 128 && s[0] != SLASH
  {
    hide ParseString, ParseNumber, ParseArray, ParseObject;
  }
}
