/**
 Where cJSON_ParseWithOpts says a text went wrong: how far the grammar of CJsonGrammar reads the
 text, and which byte behind that it cannot go on with. Nothing here is defined by the parser.
 */
module CJsonErrors {
  import opened Text
  import opened CJsonValue
  import opened CJsonString
  import opened CJsonNumber
  import opened CJsonParse
  import opened CJsonGrammar

  // ---- texts read up to some place inside a document ----

  /** What has been read in front of a place: the place is that of a value, or somewhere in an
      array or object that is still open. */
  datatype Path =
    | There
    | IntoArray(items: ItemsPath)
    | IntoObject(members: MembersPath)

  /** In the items: at the next one, past one and its comma, or past one where a comma or bracket
      has to stand. */
  datatype ItemsPath =
    | AtItem(before: Bytes, inner: Path)
    | PastItem(before: Bytes, doc: Doc, after: Bytes, rest: ItemsPath)
    | ItemEnd(before: Bytes, doc: Doc, after: Bytes)

  /** In the members: where a key or a colon has to stand besides. */
  datatype MembersPath =
    | AtKey(before: Bytes)
    | AtColon(before: Bytes, ps: seq<Piece>, middle: Bytes)
    | AtValue(key: Key, inner: Path)
    | PastEntry(key: Key, doc: Doc, after: Bytes, rest: MembersPath)
    | EntryEnd(key: Key, doc: Doc, after: Bytes)

  function WritePath(path: Path, s: Bytes): Bytes {
    match path
    case There => s
    case IntoArray(items) => [91] + WriteItemsPath(items, s)
    case IntoObject(members) => [123] + WriteMembersPath(members, s)
  }

  function WriteItemsPath(items: ItemsPath, s: Bytes): Bytes {
    match items
    case AtItem(before, inner) => before + WritePath(inner, s)
    case PastItem(before, doc, after, rest) => before + Write(doc, after + ([44] + WriteItemsPath(rest, s)))
    case ItemEnd(before, doc, after) => before + Write(doc, after + s)
  }

  function WriteMembersPath(members: MembersPath, s: Bytes): Bytes {
    match members
    case AtKey(before) => before + s
    case AtColon(before, ps, middle) => before + WriteString(ps, middle + s)
    case AtValue(key, inner) => WriteKey(key, WritePath(inner, s))
    case PastEntry(key, doc, after, rest) => WriteKey(key, Write(doc, after + ([44] + WriteMembersPath(rest, s))))
    case EntryEnd(key, doc, after) => WriteKey(key, Write(doc, after + s))
  }

  // ---- what cannot be read ----

  /** No value begins like this. */
  predicate NoStart(s: Bytes) {
    && s != [] && s[0] != 34 && s[0] != 45 && !(48 <= s[0] <= 57) && s[0] != 91 && s[0] != 123
    && !([110, 117, 108, 108] <= s) && !([102, 97, 108, 115, 101] <= s) && !([116, 114, 117, 101] <= s)
  }

  /** A minus sign before no number. */
  ghost predicate NoNumeral(s: Bytes) { s != [] && s[0] == 45 && forall n | GoodNumeral(n) :: !(NumeralText(n) <= s) }

  /** A string without its closing quote. */
  predicate NeverClosed(s: Bytes) {
    s != [] && s[0] == 34 && forall j | 1 <= j < |s| && s[j] == 34 :: !Enclosed(s[1..j])
  }

  /** Pieces of a string are read up to k, but none goes on from there. */
  ghost predicate NoPiece(s: Bytes, ps: seq<Piece>, k: nat, j: nat) {
    && 1 <= k < j < |s| && s[0] == 34 && s[j] == 34 && Enclosed(s[1..j])
    && GoodPieces(ps) && Lone !in ps && PiecesText(ps) == s[1..k]
    && forall p | GoodPiece(p) && (p.Lone? ==> j == k + 1) :: !(PieceText(p) <= s[k..j])
  }

  /** A value is refused, k bytes from its start, with d brackets open. */
  ghost predicate Fault(s: Bytes, k: nat, d: nat) {
    || (k == 0 && (NoStart(s) || NoNumeral(s)))
    || (k == 0 && s != [] && (s[0] == 91 || s[0] == 123) && d >= 1000)
    || (k == 1 && NeverClosed(s))
    || exists ps, j :: NoPiece(s, ps, k, j)
  }

  predicate Fine(doc: Doc, d: nat) { Good(doc) && (Depth(doc) == 0 || d + Depth(doc) <= 1000) }

  /** The text s behind the place is refused k bytes into it; d brackets are open around the path. */
  ghost predicate Refused(path: Path, s: Bytes, k: nat, d: nat)
    requires Terminated(s)
  {
    match path
    case There => Fault(s, k, d)
    case IntoArray(items) =>
      d < 1000 && RefusedItems(items, s, k, d + 1) && (items.AtItem? && items.inner.There? ==> s[0] != 93)
    case IntoObject(members) =>
      d < 1000 && RefusedMembers(members, s, k, d + 1) && (members.AtKey? ==> s[0] != 125)
  }

  ghost predicate RefusedItems(items: ItemsPath, s: Bytes, k: nat, d: nat)
    requires Terminated(s)
  {
    match items
    case AtItem(before, inner) => Gap(before) && Refused(inner, s, k, d)
    case PastItem(before, doc, after, rest) =>
      Gap(before) && Fine(doc, d) && Gap(after) && RefusedItems(rest, s, k, d)
    case ItemEnd(before, doc, after) =>
      && Gap(before) && Fine(doc, d) && Gap(after) && Behind(doc, after + s)
      && k == 0 && s[0] != 44 && s[0] != 93
  }

  /** A missing key is reported one byte late. */
  ghost predicate RefusedMembers(members: MembersPath, s: Bytes, k: nat, d: nat)
    requires Terminated(s)
  {
    match members
    case AtKey(before) => Gap(before) && k == 1 && s[0] != 34
    case AtColon(before, ps, middle) => Gap(before) && GoodString(ps) && Gap(middle) && k == 0 && s[0] != 58
    case AtValue(key, inner) => GoodKey(key) && Refused(inner, s, k, d)
    case PastEntry(key, doc, after, rest) =>
      GoodKey(key) && Fine(doc, d) && Gap(after) && RefusedMembers(rest, s, k, d)
    case EntryEnd(key, doc, after) =>
      && GoodKey(key) && Fine(doc, d) && Gap(after) && Behind(doc, after + s)
      && k == 0 && s[0] != 44 && s[0] != 125
  }

  /** Text the parser does not skip into. */
  predicate Visible(s: Bytes) { Terminated(s) && (s[0] > 32 || |s| == 1) }

  // ---- a fault is where parse_value fails ----

  lemma PrefixWord(s: Bytes, w: Bytes)
    requires StartsWith(s, w)
    ensures w <= s
  {
    StartsWithLength(s, w);
  }

  lemma StartFails(s: Bytes, d: nat)
    requires Terminated(s) && NoStart(s)
    ensures ParseValue(s, d) == Fail(s)
  {
    hide ParseString, ParseNumber, ParseArray, ParseObject, StartsWith;
    if StartsWith(s, NULL_WORD) {
      PrefixWord(s, NULL_WORD);
    } else if StartsWith(s, FALSE_WORD) {
      PrefixWord(s, FALSE_WORD);
    } else if StartsWith(s, TRUE_WORD) {
      PrefixWord(s, TRUE_WORD);
    }
  }

  lemma NumeralFails(s: Bytes, d: nat)
    requires Terminated(s) && NoNumeral(s)
    ensures ParseValue(s, d) == Fail(s)
  {
    hide ParseString, Strtod, ParseArray, ParseObject, NumeralText, GoodNumeral;
    if ParseNumber(s).Ok? {
      var n := NumberSpelt(s);
    }
  }

  lemma StringFails(s: Bytes, d: nat)
    requires Terminated(s) && s[0] == 34 && ParseString(s).Fail?
    ensures ParseValue(s, d) == Fail(ParseString(s).rest)
  {
    hide ParseString, ParseNumber, ParseArray, ParseObject;
  }

  lemma OpenFails(s: Bytes)
    requires Terminated(s) && NeverClosed(s)
    ensures ParseString(s) == Fail(s[1..])
  {
    hide Enclosed, ClosingQuote;
    if ClosingQuote(s[1..]).Some? {
      var k := ClosingQuote(s[1..]).value;
      assert s[1..][k] == s[1 + k] == 34;
      assert s[1..] == s[1..1 + k] + ([34] + s[k + 2..]);
      EnclosedCloses(s[1..1 + k], s[k + 2..]);
    }
  }

  lemma {:induction false} PiecesStop(ps: seq<Piece>, b: Bytes)
    requires GoodPieces(ps) && Lone !in ps && b != [] && UnescapeTurn(b) == Stuck
    ensures Unescape(PiecesText(ps) + b) == Bad(b)
  {
    hide UnescapeTurn, PieceText, PieceBytes, GoodPiece;
    if ps == [] {
      assert [] + b == b;
    } else {
      var t := PiecesText(ps[1..]) + b;
      assert ps[0] in ps;
      PieceTaken(ps[0], t);
      PiecesStop(ps[1..], b);
      assert PiecesText(ps) + b == PieceText(ps[0]) + t;
    }
  }

  lemma PieceFails(s: Bytes, ps: seq<Piece>, k: nat, j: nat)
    requires Terminated(s) && NoPiece(s, ps, k, j)
    ensures ParseString(s) == Fail(s[k..])
  {
    hide ClosingQuote, Unescape, UnescapeTurn, PieceText, PieceBytes, PiecesText, GoodPiece, GoodPieces, Enclosed;
    var body, b := s[1..j], s[k..j];
    if UnescapeTurn(b).Turn? {
      var p := TurnSpelt(b);
    }
    PiecesStop(ps, b);
    assert body == s[1..k] + b;
    assert s[1..] == body + ([34] + s[j + 1..]);
    EnclosedCloses(body, s[j + 1..]);
    assert s[1 + |body| - |b|..] == s[k..];
  }

  lemma FaultFails(s: Bytes, k: nat, d: nat)
    requires Terminated(s) && Fault(s, k, d)
    ensures k <= |s| && ParseValue(s, d) == Fail(s[k..])
  {
    hide ParseValue, ParseString, NoStart, NoNumeral, NeverClosed, NoPiece;
    if ps, j :| NoPiece(s, ps, k, j) {
      PieceFails(s, ps, k, j);
      PlaceInside(s, ps, k, j);
      StringFails(s, d);
    } else if k == 1 {
      OpenFails(s);
      QuoteFirst(s);
      StringFails(s, d);
    } else if NoStart(s) {
      StartFails(s, d);
    } else if NoNumeral(s) {
      NumeralFails(s, d);
    } else {
      DeepFails(s, d);
    }
  }

  lemma PlaceInside(s: Bytes, ps: seq<Piece>, k: nat, j: nat)
    requires NoPiece(s, ps, k, j)
    ensures k <= |s| && s[0] == 34
  {
  }

  lemma QuoteFirst(s: Bytes)
    requires NeverClosed(s)
    ensures s != [] && s[0] == 34
  {
  }

  lemma DeepFails(s: Bytes, d: nat)
    requires Terminated(s) && (s[0] == 91 || s[0] == 123) && d >= 1000
    ensures ParseValue(s, d) == Fail(s)
  {
    hide ParseValue, SkipSpace, ParseItems, ParseMembers;
    if s[0] == 91 {
      ArrayUnfold(s, d);
    } else {
      ObjectUnfold(s, d);
    }
  }

  // ---- the failure goes through everything that is open ----

  lemma {:induction false} PathFails(path: Path, s: Bytes, k: nat, d: nat)
    requires Visible(s) && Refused(path, s, k, d)
    ensures Visible(WritePath(path, s)) && k <= |s| && ParseValue(WritePath(path, s), d) == Fail(s[k..])
    ensures path.There? || WritePath(path, s)[0] == 91 || WritePath(path, s)[0] == 123
    decreases path, 1
  {
    hide ParseValue, ParseItems, ParseMembers, SkipSpace, RefusedItems, RefusedMembers;
    match path
    case There => FaultFails(s, k, d);
    case IntoArray(items) =>
      ItemsFail(items, s, k, d + 1);
      var t := WriteItemsPath(items, s);
      TerminatedAfter([91], t);
      Uncons(91, t);
      ArrayUnfold([91] + t, d);
    case IntoObject(members) =>
      MembersFail(members, s, k, d + 1);
      var t := WriteMembersPath(members, s);
      TerminatedAfter([123], t);
      Uncons(123, t);
      ObjectUnfold([123] + t, d);
  }

  lemma {:induction false} ItemsFail(items: ItemsPath, s: Bytes, k: nat, d: nat)
    requires Visible(s) && RefusedItems(items, s, k, d)
    ensures Terminated(WriteItemsPath(items, s)) && k <= |s|
    ensures var t := SkipSpace(WriteItemsPath(items, s));
      ParseItems(t, d) == Fail(s[k..]) && (t[0] == 93 ==> items.AtItem? && items.inner.There? && t == s)
    decreases items, 0
  {
    hide ParseValue, ParseItems, SkipSpace, Write, Good, Depth, Refused, WritePath;
    match items
    case AtItem(before, inner) =>
      PathFails(inner, s, k, d);
      GapSkipped(before, WritePath(inner, s));
      ItemFails(WritePath(inner, s), d);
      PathThere(inner, s);
    case PastItem(before, doc, after, rest) =>
      ItemsFail(rest, s, k, d);
      var u := WriteItemsPath(rest, s);
      CloserEnds(after, 44, u);
      Uncons(44, u);
      ItemFollowed(before, doc, after + ([44] + u), d);
      ItemsUnfold(Write(doc, after + ([44] + u)), d);
    case ItemEnd(before, doc, after) =>
      TerminatedAfter(after, s);
      GapSkipped(after, s);
      ItemFollowed(before, doc, after + s, d);
      ItemsUnfold(Write(doc, after + s), d);
  }

  lemma PathThere(path: Path, s: Bytes)
    ensures path.There? ==> WritePath(path, s) == s
  {
  }

  lemma ItemFollowed(before: Bytes, doc: Doc, r: Bytes, d: nat)
    requires Gap(before) && Fine(doc, d) && Behind(doc, r)
    ensures var t := Write(doc, r);
      && Terminated(t) && ParseValue(t, d) == Ok(Value(doc), r)
      && Terminated(before + t) && SkipSpace(before + t) == t && t[0] > 32 && t[0] != 93
  {
    hide ParseValue, SkipSpace, Write, Good, Depth;
    ValueTaken(doc, d, r);
    WriteHead(doc, r);
    GapSkipped(before, Write(doc, r));
  }

  lemma {:induction false} MembersFail(members: MembersPath, s: Bytes, k: nat, d: nat)
    requires Visible(s) && RefusedMembers(members, s, k, d)
    ensures Terminated(WriteMembersPath(members, s)) && k <= |s|
    ensures var t := SkipSpace(WriteMembersPath(members, s));
      ParseMembers(t, d) == Fail(s[k..]) && (t[0] == 125 ==> members.AtKey? && t == s)
    decreases members, 0
  {
    hide ParseValue, ParseMembers, ParseName, SkipSpace, Write, WriteKey, Good, GoodKey, Depth, Refused, WritePath;
    match members
    case AtKey(before) =>
      GapSkipped(before, s);
      NoKey(s, d);
    case AtColon(before, ps, middle) =>
      NoColon(before, ps, middle, s, d);
    case AtValue(key, inner) =>
      PathFails(inner, s, k, d);
      KeyTaken(key, WritePath(inner, s));
      MemberFails(SkipSpace(WriteKey(key, WritePath(inner, s))), d);
    case PastEntry(key, doc, after, rest) =>
      MembersFail(rest, s, k, d);
      var u := WriteMembersPath(rest, s);
      CloserEnds(after, 44, u);
      Uncons(44, u);
      EntryFollowed(key, doc, after + ([44] + u), d);
      MembersUnfold(SkipSpace(WriteKey(key, Write(doc, after + ([44] + u)))), d);
    case EntryEnd(key, doc, after) =>
      TerminatedAfter(after, s);
      GapSkipped(after, s);
      EntryFollowed(key, doc, after + s, d);
      MembersUnfold(SkipSpace(WriteKey(key, Write(doc, after + s))), d);
  }

  lemma EntryFollowed(key: Key, doc: Doc, r: Bytes, d: nat)
    requires GoodKey(key) && Fine(doc, d) && Behind(doc, r)
    ensures var u := Write(doc, r);
      && Terminated(u) && ParseValue(u, d) == Ok(Value(doc), r) && Terminated(WriteKey(key, u))
      && (var t := SkipSpace(WriteKey(key, u)); t[0] == 34 && ParseName(t) == Ok(PiecesBytes(key.ps), u))
  {
    hide ParseValue, SkipSpace, Write, Good, Depth, WriteKey, GoodKey, ParseName;
    ValueTaken(doc, d, r);
    WriteHead(doc, r);
    KeyTaken(key, Write(doc, r));
  }

  lemma NoKey(s: Bytes, d: nat)
    requires Terminated(s) && s[0] != 34
    ensures ParseMembers(s, d) == Fail(s[1..])
  {
    hide ParseValue, SkipSpace;
  }

  lemma NoColon(before: Bytes, ps: seq<Piece>, middle: Bytes, s: Bytes, d: nat)
    requires Gap(before) && GoodString(ps) && Gap(middle) && Visible(s) && s[0] != 58
    ensures var w := before + WriteString(ps, middle + s);
      Terminated(w) && SkipSpace(w)[0] == 34 && ParseMembers(SkipSpace(w), d) == Fail(s)
  {
    hide ParseString, SkipSpace, PiecesText, PiecesBytes, GoodString, ParseName, ParseValue;
    GapSkipped(middle, s);
    var rest := middle + s;
    var text := WriteString(ps, rest);
    StringTaken(ps, rest);
    TerminatedAfter([34], rest);
    TerminatedAfter(PiecesText(ps), [34] + rest);
    TerminatedAfter([34], PiecesText(ps) + ([34] + rest));
    GapSkipped(before, text);
    NameUnfold(text);
    EntryFails(text, d);
  }

  // ---- whole texts ----

  lemma {:induction false} PathAppend(path: Path, s: Bytes, x: Bytes)
    ensures WritePath(path, s) + x == WritePath(path, s + x)
    decreases path, 1
  {
    match path
    case There =>
    case IntoArray(items) =>
      ItemsPathAppend(items, s, x);
      Carry2([91], WriteItemsPath(items, s), x);
    case IntoObject(members) =>
      MembersPathAppend(members, s, x);
      Carry2([123], WriteMembersPath(members, s), x);
  }

  lemma {:induction false} ItemsPathAppend(items: ItemsPath, s: Bytes, x: Bytes)
    ensures WriteItemsPath(items, s) + x == WriteItemsPath(items, s + x)
    decreases items, 0
  {
    hide Write;
    match items
    case AtItem(before, inner) =>
      PathAppend(inner, s, x);
      Carry2(before, WritePath(inner, s), x);
    case PastItem(before, doc, after, rest) =>
      ItemsPathAppend(rest, s, x);
      Followed(before, doc, after + ([44] + WriteItemsPath(rest, s)), x);
      AfterAppend(after, 44, WriteItemsPath(rest, s), x);
    case ItemEnd(before, doc, after) =>
      Followed(before, doc, after + s, x);
      Carry2(after, s, x);
  }

  lemma Followed(before: Bytes, doc: Doc, r: Bytes, x: Bytes)
    ensures before + Write(doc, r) + x == before + Write(doc, r + x)
  {
    hide Write;
    WriteAppend(doc, r, x);
    Carry2(before, Write(doc, r), x);
  }

  lemma {:induction false} MembersPathAppend(members: MembersPath, s: Bytes, x: Bytes)
    ensures WriteMembersPath(members, s) + x == WriteMembersPath(members, s + x)
    decreases members, 0
  {
    hide Write, WriteKey, PiecesText;
    match members
    case AtKey(before) => Carry2(before, s, x);
    case AtColon(before, ps, middle) =>
      Carry4(before, [34], PiecesText(ps), [34] + (middle + s), x);
      Carry3([34], middle, s, x);
    case AtValue(key, inner) =>
      PathAppend(inner, s, x);
      KeyAppend(key, WritePath(inner, s), x);
    case PastEntry(key, doc, after, rest) =>
      MembersPathAppend(rest, s, x);
      var r := after + ([44] + WriteMembersPath(rest, s));
      AfterAppend(after, 44, WriteMembersPath(rest, s), x);
      WriteAppend(doc, r, x);
      KeyAppend(key, Write(doc, r), x);
    case EntryEnd(key, doc, after) =>
      Carry2(after, s, x);
      WriteAppend(doc, after + s, x);
      KeyAppend(key, Write(doc, after + s), x);
  }

  /** The reported position is the byte that is refused, counted from the end of the text. */
  lemma ErrorReported(marked: bool, before: Bytes, path: Path, s: Bytes, k: nat, whole: bool)
    requires Gap(before) && Visible(s + [0]) && Refused(path, s + [0], k, 0)
    requires var t := before + WritePath(path, s);
      if marked then t != [] else t == [] || t[0] != 0xEF
    ensures var text := (if marked then [0xEF, 0xBB, 0xBF] else []) + (before + WritePath(path, s));
      0 !in text ==> Parse(text, whole).Fail?
                     && ErrorPosition(text, Parse(text, whole).rest) == |text| - |s| + if k <= |s| then k else |s|
  {
    hide ParseValue, SkipSpace, SkipBom, Refused, WritePath, Visible, Gap;
    var t := before + WritePath(path, s);
    var text := (if marked then [0xEF, 0xBB, 0xBF] else []) + t;
    PathFails(path, s + [0], k, 0);
    PathAppend(path, s, [0]);
    VisibleMeans(WritePath(path, s + [0]));
    GapSkipped(before, WritePath(path, s + [0]));
    Carry2(before, WritePath(path, s), [0]);
    MarkRead(marked, t);
    Carry2(if marked then [0xEF, 0xBB, 0xBF] else [], t, [0]);
  }

  lemma VisibleMeans(s: Bytes)
    requires Visible(s)
    ensures Terminated(s) && (s[0] > 32 || |s| == 1)
  {
  }

  /** The mark is skipped where something stands behind it. */
  lemma MarkRead(marked: bool, t: Bytes)
    requires if marked then t != [] else t == [] || t[0] != 0xEF
    ensures var s := (if marked then [0xEF, 0xBB, 0xBF] else []) + (t + [0]);
      Terminated(s) && SkipBom(s) == t + [0]
  {
    if marked {
      TerminatedAfter(BOM, t + [0]);
      StartsWithPrefix(BOM, t + [0]);
      assert (BOM + (t + [0]))[3..] == t + [0];
    } else {
      assert [] + (t + [0]) == t + [0];
    }
  }

  /** Visible text behind the document is an error, at its first byte, only if the whole text is asked for. */
  lemma JunkReported(marked: bool, before: Bytes, doc: Doc, after: Bytes, s: Bytes)
    requires Gap(before) && Good(doc) && Depth(doc) <= 1000 && Gap(after)
    requires s != [] && s[0] > 32 && Behind(doc, after + (s + [0]))
    ensures var text := (if marked then [0xEF, 0xBB, 0xBF] else []) + (before + Write(doc, after + s));
      0 !in text ==> Parse(text, true).Fail? && ErrorPosition(text, Parse(text, true).rest) == |text| - |s|
                     && Parse(text, false) == Ok(Value(doc), after + (s + [0]))
  {
    hide ParseValue, SkipSpace, SkipBom, Write, Good, Value, Depth, Gap, Behind;
    var text := (if marked then [0xEF, 0xBB, 0xBF] else []) + (before + Write(doc, after + s));
    PageWritten(Page(marked, before, doc, after + s));
    Carry2(after, s, [0]);
    DocRead(marked, before, doc, after + (s + [0]));
    GapSkipped(after, s + [0]);
    if 0 !in text {
      TextSealed(text);
      assert s[0] != 0;
    }
  }
}
