/**
 What JSON text means, written down without the parser: documents as trees of their own, the
 text of a document byte by byte, and the value it stands for. The parser accepts exactly the
 texts of documents and returns exactly their values.

 The grammar is that of RFC 8259 with what cJSON adds to it: any byte up to 32 between tokens,
 any byte but an unescaped quote or backslash inside strings, the numbers strtod takes, and
 four-byte code units that are no hexadecimal number, which stand for the code point 0.
 */
module CJsonGrammar {
  import opened Text
  import opened Digits
  import opened CJsonValue
  import opened CJsonString
  import opened CJsonNumber
  import opened CJsonParse

  // ---- numbers ----

  type Dec = x: int | 0 <= x < 10

  datatype Tail = NoTail | Tail(upper: bool, sign: int, digits: seq<Dec>)

  datatype Numeral = Numeral(minus: bool, whole: seq<Dec>, dot: bool, frac: seq<Dec>, tail: Tail)

  function Spelled(ds: seq<Dec>): (s: Bytes)
    ensures |s| == |ds| && forall i | 0 <= i < |ds| :: s[i] == 48 + (ds[i] as int)
  {
    if ds == [] then [] else Spelled(ds[..|ds| - 1]) + [48 + (ds[|ds| - 1] as int)]
  }

  function Count(ds: seq<Dec>): nat {
    if ds == [] then 0 else Count(ds[..|ds| - 1]) * 10 + ds[|ds| - 1]
  }

  function TailText(t: Tail): Bytes {
    match t
    case NoTail => []
    case Tail(upper, sign, digits) =>
      [if upper then 69 else 101] + (SignText(sign) + Spelled(digits))
  }

  function SignText(sign: int): Bytes { if sign < 0 then [45] else if sign > 0 then [43] else [] }

  function NumeralText(n: Numeral): Bytes {
    (if n.minus then [45] else [])
    + (Spelled(n.whole) + ((if n.dot then [46] else []) + (Spelled(n.frac) + TailText(n.tail))))
  }

  /** At least one digit before the exponent, a dot before a fraction, and at most 63 bytes. */
  predicate GoodNumeral(n: Numeral) {
    && (n.minus || n.whole != []) && (n.whole != [] || n.frac != []) && (n.frac != [] ==> n.dot)
    && (n.tail.Tail? ==> n.tail.digits != [])
    && |NumeralText(n)| <= 63
  }

  function TailValue(t: Tail): int {
    if t.NoTail? then 0 else if t.sign < 0 then -(Count(t.digits) as int) else Count(t.digits)
  }

  function NumeralValue(n: Numeral): Decimal {
    var count := Count(n.whole + n.frac);
    Decimal(if n.minus then -(count as int) else count, TailValue(n.tail) - |n.frac|)
  }

  // ---- strings ----

  /** A digit of base 16, in either case. */
  predicate Spells(c: byte, d: int) {
    (0 <= d < 10 && c == 48 + d) || (10 <= d < 16 && (c == 55 + d || c == 87 + d))
  }

  /** Four such digits of a number below 65536. */
  predicate SpellsUnit(h: Bytes, u: int) {
    && |h| == 4 && 0 <= u < 65536
    && Spells(h[0], u / 4096) && Spells(h[1], u / 256 % 16) && Spells(h[2], u / 16 % 16) && Spells(h[3], u % 16)
  }

  predicate HexByte(c: byte) { 48 <= c <= 57 || 65 <= c <= 70 || 97 <= c <= 102 }

  datatype Piece =
    | Plain(b: byte)
    | Escaped(c: byte)
    | Code(u: nat, h: Bytes)
    | CodePair(cp: nat, hi: Bytes, lo: Bytes)
    | BadCode(h: Bytes)
    | Lone

  /** Bytes named by a letter after a backslash. */
  function Named(c: byte): Option<byte> {
    match c
    case 34 => Some(34)
    case 47 => Some(47)
    case 92 => Some(92)
    case 98 => Some(8)
    case 102 => Some(12)
    case 110 => Some(10)
    case 114 => Some(13)
    case 116 => Some(9)
    case _ => None
  }

  predicate GoodPiece(p: Piece) {
    match p
    case Plain(b) => b != 92
    case Escaped(c) => Named(c).Some?
    case Code(u, h) => SpellsUnit(h, u) && !(0xD800 <= u <= 0xDFFF)
    case CodePair(cp, hi, lo) =>
      && 0x10000 <= cp <= 0x10FFFF
      && SpellsUnit(hi, 0xD800 + (cp - 0x10000) / 1024) && SpellsUnit(lo, 0xDC00 + (cp - 0x10000) % 1024)
    case BadCode(h) => |h| == 4 && exists i | 0 <= i < 4 :: !HexByte(h[i])
    case Lone => true
  }

  function PieceText(p: Piece): (r: Bytes)
    ensures r != []
  {
    match p
    case Plain(b) => [b]
    case Escaped(c) => [92, c]
    case Code(_, h) => [92, 117] + h
    case CodePair(_, hi, lo) => [92, 117] + (hi + ([92, 117] + lo))
    case BadCode(h) => [92, 117] + h
    case Lone => [92]
  }

  function PieceBytes(p: Piece): Bytes
    requires GoodPiece(p)
  {
    match p
    case Plain(b) => [b]
    case Escaped(c) => [Named(c).value]
    case Code(u, _) => Utf8(u)
    case CodePair(cp, _, _) => Utf8(cp)
    case BadCode(_) => [0]
    case Lone => [34]
  }

  /** A backslash on its own can only be the last byte; it then stands for the quote behind it. */
  predicate GoodPieces(ps: seq<Piece>) {
    ps != [] ==> GoodPiece(ps[0]) && (ps[0].Lone? ==> |ps| == 1) && GoodPieces(ps[1..])
  }

  function PiecesText(ps: seq<Piece>): Bytes {
    if ps == [] then [] else PieceText(ps[0]) + PiecesText(ps[1..])
  }

  function PiecesBytes(ps: seq<Piece>): Bytes
    requires GoodPieces(ps)
  {
    if ps == [] then [] else PieceBytes(ps[0]) + PiecesBytes(ps[1..])
  }

  /** No quote in it but behind a backslash, and it does not end in the middle of an escape. */
  predicate Enclosed(body: Bytes) {
    body == [] ||
    if body[0] == 92 then |body| >= 2 && Enclosed(body[2..]) else body[0] != 34 && Enclosed(body[1..])
  }

  predicate GoodString(ps: seq<Piece>) { GoodPieces(ps) && Enclosed(PiecesText(ps)) }

  // ---- documents ----

  /** What may stand between tokens. */
  predicate Gap(w: Bytes) { forall b <- w :: 0 < b <= 32 }

  datatype Doc =
    | NullDoc
    | FalseDoc
    | TrueDoc
    | NumberDoc(n: Numeral)
    | StringDoc(ps: seq<Piece>)
    | EmptyArray(gap: Bytes)
    | ArrayDoc(items: Items)
    | EmptyObject(gap: Bytes)
    | ObjectDoc(members: Members)

  datatype Items =
    | LastOne(before: Bytes, doc: Doc, after: Bytes)
    | OneMore(before: Bytes, doc: Doc, after: Bytes, next: Items)

  datatype Key = Key(before: Bytes, ps: seq<Piece>, middle: Bytes, behind: Bytes)

  datatype Members =
    | LastEntry(key: Key, doc: Doc, after: Bytes)
    | NextEntry(key: Key, doc: Doc, after: Bytes, next: Members)

  predicate Good(doc: Doc) {
    match doc
    case NumberDoc(n) => GoodNumeral(n)
    case StringDoc(ps) => GoodString(ps)
    case EmptyArray(gap) => Gap(gap)
    case ArrayDoc(items) => GoodItems(items)
    case EmptyObject(gap) => Gap(gap)
    case ObjectDoc(members) => GoodMembers(members)
    case _ => true
  }

  predicate GoodItems(items: Items) {
    Gap(items.before) && Good(items.doc) && Gap(items.after) && (items.OneMore? ==> GoodItems(items.next))
  }

  predicate GoodKey(key: Key) { Gap(key.before) && GoodString(key.ps) && Gap(key.middle) && Gap(key.behind) }

  predicate GoodMembers(members: Members) {
    && GoodKey(members.key) && Good(members.doc) && Gap(members.after)
    && (members.NextEntry? ==> GoodMembers(members.next))
  }

  /** The text of a document, with r behind it. */
  function Write(doc: Doc, r: Bytes): Bytes {
    match doc
    case NullDoc => [110, 117, 108, 108] + r
    case FalseDoc => [102, 97, 108, 115, 101] + r
    case TrueDoc => [116, 114, 117, 101] + r
    case NumberDoc(n) => NumeralText(n) + r
    case StringDoc(ps) => WriteString(ps, r)
    case EmptyArray(gap) => [91] + (gap + ([93] + r))
    case ArrayDoc(items) => [91] + WriteItems(items, r)
    case EmptyObject(gap) => [123] + (gap + ([125] + r))
    case ObjectDoc(members) => [123] + WriteMembers(members, r)
  }

  function WriteString(ps: seq<Piece>, r: Bytes): Bytes { [34] + (PiecesText(ps) + ([34] + r)) }

  function WriteItems(items: Items, r: Bytes): Bytes {
    match items
    case LastOne(before, doc, after) => before + Write(doc, after + ([93] + r))
    case OneMore(before, doc, after, next) => before + Write(doc, after + ([44] + WriteItems(next, r)))
  }

  function WriteKey(key: Key, r: Bytes): Bytes {
    key.before + WriteString(key.ps, key.middle + ([58] + (key.behind + r)))
  }

  function WriteMembers(members: Members, r: Bytes): Bytes {
    match members
    case LastEntry(key, doc, after) => WriteKey(key, Write(doc, after + ([125] + r)))
    case NextEntry(key, doc, after, next) => WriteKey(key, Write(doc, after + ([44] + WriteMembers(next, r))))
  }

  function Value(doc: Doc): Json
    requires Good(doc)
  {
    match doc
    case NullDoc => Null
    case FalseDoc => False
    case TrueDoc => True
    case NumberDoc(n) => Number(NumeralValue(n))
    case StringDoc(ps) => String(PiecesBytes(ps))
    case EmptyArray(_) => Array(End)
    case ArrayDoc(items) => Array(ItemValues(items))
    case EmptyObject(_) => Object(End)
    case ObjectDoc(members) => Object(MemberValues(members))
  }

  function ItemValues(items: Items): Chain
    requires GoodItems(items)
  {
    Node(None, Value(items.doc), if items.OneMore? then ItemValues(items.next) else End)
  }

  function MemberValues(members: Members): Chain
    requires GoodMembers(members)
  {
    Node(Some(PiecesBytes(members.key.ps)), Value(members.doc),
         if members.NextEntry? then MemberValues(members.next) else End)
  }

  /** How many brackets are open at the innermost place. */
  function Depth(doc: Doc): nat {
    match doc
    case EmptyArray(_) => 1
    case ArrayDoc(items) => 1 + ItemsDepth(items)
    case EmptyObject(_) => 1
    case ObjectDoc(members) => 1 + MembersDepth(members)
    case _ => 0
  }

  function ItemsDepth(items: Items): nat {
    var d := Depth(items.doc);
    if items.OneMore? && ItemsDepth(items.next) > d then ItemsDepth(items.next) else d
  }

  function MembersDepth(members: Members): nat {
    var d := Depth(members.doc);
    if members.NextEntry? && MembersDepth(members.next) > d then MembersDepth(members.next) else d
  }

  /** A whole text: perhaps a byte order mark, then a document with gaps around it. */
  datatype Page = Page(marked: bool, before: Bytes, doc: Doc, after: Bytes)

  predicate GoodPage(p: Page) { Gap(p.before) && Good(p.doc) && Gap(p.after) && Depth(p.doc) <= 1000 }

  function PageText(p: Page): Bytes {
    (if p.marked then [0xEF, 0xBB, 0xBF] else []) + (p.before + Write(p.doc, p.after))
  }

  // ---- numbers are read as they are spelled ----

  lemma {:induction false} SpelledValue(ds: seq<Dec>)
    ensures RadixValue(Spelled(ds), 10) == Count(ds) && forall c <- Spelled(ds) :: IsDigit(c)
  {
    if ds != [] {
      var s := Spelled(ds);
      SpelledValue(ds[..|ds| - 1]);
      assert s[..|s| - 1] == Spelled(ds[..|ds| - 1]);
    }
  }

  lemma {:induction false} SpelledJoin(a: seq<Dec>, b: seq<Dec>)
    ensures Spelled(a + b) == Spelled(a) + Spelled(b)
  {
  }

  predicate NoDigitFirst(r: Bytes) { r == [] || !IsDigit(r[0]) }

  lemma SpelledRun(ds: seq<Dec>, r: Bytes)
    requires NoDigitFirst(r)
    ensures DigitRun(Spelled(ds) + r) == |ds| && (Spelled(ds) + r)[..|ds|] == Spelled(ds)
    ensures (Spelled(ds) + r)[|ds|..] == r
  {
    SpelledValue(ds);
    RunEnds(Spelled(ds), r);
  }

  lemma TailScanned(t: Tail)
    requires t.Tail? ==> t.digits != []
    ensures Exponent(TailText(t)) == (|TailText(t)|, TailValue(t)) && NoDigitFirst(TailText(t))
    ensures TailText(t) != [] ==> TailText(t)[0] == 101 || TailText(t)[0] == 69
  {
    if t.Tail? {
      TailTaken(t);
    } else {
      NoExponent();
    }
  }

  lemma TailTaken(t: Tail)
    requires t.Tail? && t.digits != []
    ensures Exponent(TailText(t)) == (|TailText(t)|, TailValue(t))
    ensures TailText(t) != [] && (TailText(t)[0] == 101 || TailText(t)[0] == 69)
  {
    hide *;
    var s, d := TailText(t), Spelled(t.digits);
    TailParts(t);
    SpelledValue(t.digits);
    AllDigits(d);
    TailSign(t, Count(t.digits));
    TailMeans(t);
    ExponentFrom(s, s[1..], |SignText(t.sign)|, d);
  }

  lemma TailMeans(t: Tail)
    requires t.Tail?
    ensures TailValue(t) == if t.sign < 0 then -(Count(t.digits) as int) else Count(t.digits)
  {
    hide Count;
  }

  lemma NoExponent()
    ensures Exponent([]) == (0, 0)
  {
  }

  lemma TailParts(t: Tail)
    requires t.Tail? && t.digits != []
    ensures var s, n, d := TailText(t), |SignText(t.sign)|, Spelled(t.digits);
      && |s| == 1 + n + |d| && (s[0] == 101 || s[0] == 69) && s[1..] == SignText(t.sign) + d
      && s[1 + n..] == d && s[1 + n..1 + n + |d|] == d
  {
    hide Spelled, SignText;
    var s, g, d := TailText(t), SignText(t.sign), Spelled(t.digits);
    Parted([s[0]], g + d);
    PartedAt(s, 1, g, d);
    assert d + [] == d;
    PartedAt(s, 1 + |g|, d, []);
  }

  lemma TailSign(t: Tail, n: nat)
    requires t.Tail? && t.digits != [] && TailText(t) != [] && TailText(t)[1..] == SignText(t.sign) + Spelled(t.digits)
    ensures SignLength(TailText(t)[1..]) == |SignText(t.sign)|
    ensures Signed(TailText(t)[1..], n) == if t.sign < 0 then -(n as int) else n
  {
    hide TailText;
    SpelledValue(t.digits);
  }

  lemma ExponentFrom(s: Bytes, body: Bytes, n: nat, digits: Bytes)
    requires s != [] && (s[0] == 101 || s[0] == 69) && s[1..] == body && SignLength(body) == n && digits != []
    requires |s| == 1 + n + |digits| && s[1 + n..] == digits && s[1 + n..1 + n + |digits|] == digits
    requires DigitRun(digits) == |digits|
    ensures Exponent(s) == (1 + n + |digits|, Signed(body, RadixValue(digits, 10)))
  {
    hide *;
    ExponentUnfold(s, n, |digits|);
  }

  lemma ExponentUnfold(s: Bytes, sign: nat, n: nat)
    requires s != [] && (s[0] == 101 || s[0] == 69) && n > 0 && 1 + sign + n <= |s|
    requires SignLength(s[1..]) == sign && DigitRun(s[1 + sign..]) == n
    ensures Exponent(s) == (1 + sign + n, Signed(s[1..], RadixValue(s[1 + sign..1 + sign + n], 10)))
  {
    hide RadixValue, SignLength, Signed, DigitRun;
  }

  lemma NumeralSign(n: Numeral)
    requires GoodNumeral(n)
    ensures SignLength(NumeralText(n)) == if n.minus then 1 else 0
    ensures forall k: nat :: Signed(NumeralText(n), k) == if n.minus then -(k as int) else k
  {
    NumeralHead(n);
  }

  lemma NumeralParts(n: Numeral, sign: nat, dot: nat, d: Bytes)
    requires GoodNumeral(n) && sign == (if n.minus then 1 else 0) && dot == (if n.dot then 1 else 0)
    requires d == if n.dot then [46] else []
    ensures var s, w, f := NumeralText(n), |n.whole|, |n.frac|;
      && |s| == sign + w + dot + f + |TailText(n.tail)|
      && s[sign..] == Spelled(n.whole) + (d + (Spelled(n.frac) + TailText(n.tail)))
      && s[sign + w..] == d + (Spelled(n.frac) + TailText(n.tail))
      && s[sign + w + dot..] == Spelled(n.frac) + TailText(n.tail)
      && s[sign + w + dot + f..] == TailText(n.tail)
      && s[sign..sign + w] == Spelled(n.whole) && s[sign + w + dot..sign + w + dot + f] == Spelled(n.frac)
  {
    hide *;
    NumeralJoined(n);
    var a: Bytes := if n.minus then [45] else [];
    assert |a| == sign && |d| == dot;
    var z := Spelled(n.frac) + TailText(n.tail);
    var y := d + z;
    FourParted(NumeralText(n), a, Spelled(n.whole), d, Spelled(n.frac), TailText(n.tail), Spelled(n.whole) + y, y, z);
  }

  lemma NumeralJoined(n: Numeral)
    ensures var a, d: Bytes := (if n.minus then [45] else []), if n.dot then [46] else [];
      NumeralText(n) == a + (Spelled(n.whole) + (d + (Spelled(n.frac) + TailText(n.tail))))
    ensures |Spelled(n.whole)| == |n.whole| && |Spelled(n.frac)| == |n.frac|
  {
    hide Spelled, TailText;
  }

  /** A text in five parts, x, y and z being what is left behind the first three. */
  lemma FourParted(s: Bytes, a: Bytes, w: Bytes, d: Bytes, f: Bytes, t: Bytes, x: Bytes, y: Bytes, z: Bytes)
    requires s == a + x && x == w + y && y == d + z && z == f + t
    ensures |s| == |a| + |w| + |d| + |f| + |t|
    ensures s[|a|..] == x && s[|a| + |w|..] == y && s[|a| + |w| + |d|..] == z && s[|a| + |w| + |d| + |f|..] == t
    ensures s[|a|..|a| + |w|] == w && s[|a| + |w| + |d|..|a| + |w| + |d| + |f|] == f
  {
    hide *;
    RestAll(s);
    RestNext(s, 0, a, x);
    RestNext(s, |a|, w, y);
    RestNext(s, |a| + |w|, d, z);
    RestNext(s, |a| + |w| + |d|, f, t);
    RestMeans(s, |a|, x);
    RestMeans(s, |a| + |w|, y);
    RestMeans(s, |a| + |w| + |d|, z);
    RestMeans(s, |a| + |w| + |d| + |f|, t);
  }

  predicate Rest(s: Bytes, k: nat, x: Bytes) { k <= |s| && s[k..] == x }

  lemma RestAll(s: Bytes)
    ensures Rest(s, 0, s)
  {
  }

  lemma RestNext(s: Bytes, k: nat, a: Bytes, b: Bytes)
    requires Rest(s, k, a + b)
    ensures Rest(s, k + |a|, b) && k + |a| <= |s| && s[k..k + |a|] == a
  {
    PartedAt(s, k, a, b);
  }

  lemma RestMeans(s: Bytes, k: nat, x: Bytes)
    requires Rest(s, k, x)
    ensures k <= |s| && s[k..] == x && |s| == k + |x|
  {
  }

  lemma Parted(a: Bytes, b: Bytes)
    ensures (a + b)[|a|..] == b && (a + b)[..|a|] == a
  {
  }

  lemma PartedAt(s: Bytes, k: nat, a: Bytes, b: Bytes)
    requires k <= |s| && s[k..] == a + b
    ensures k + |a| <= |s| && s[k + |a|..] == b && s[k..k + |a|] == a
  {
    Parted(a, b);
    SuffixOfSuffix(s, k, |a|);
    assert s[k..k + |a|] == s[k..][..|a|];
  }

  lemma StrtodParts(s: Bytes, sign: nat, whole: nat, dot: nat, frac: nat)
    requires sign + whole + dot + frac <= |s| && whole + frac > 0
    requires SignLength(s) == sign && DigitRun(s[sign..]) == whole
    requires dot == if sign + whole < |s| && s[sign + whole] == 46 then 1 else 0
    requires frac == if dot == 1 then DigitRun(s[sign + whole + 1..]) else 0
    ensures var len := sign + whole + dot + frac;
      var digits := s[sign..sign + whole] + s[sign + whole + dot..len];
      var e := Exponent(s[len..]);
      Strtod(s) == Scanned(len + e.0, Decimal(Signed(s, RadixValue(digits, 10)), e.1 - frac))
  {
    hide Exponent, RadixValue, DigitRun;
  }

  lemma NumeralRuns(n: Numeral)
    requires GoodNumeral(n)
    ensures var s, sign, w := NumeralText(n), (if n.minus then 1 else 0), |n.whole|;
      && sign + w <= |s| && DigitRun(s[sign..]) == w && (n.dot <==> sign + w < |s| && s[sign + w] == 46)
      && (n.dot ==> DigitRun(s[sign + w + 1..]) == |n.frac|)
  {
    hide TailText, Exponent, NumeralText, GoodNumeral, DigitRun, Spelled;
    NumeralHead(n);
    NumeralParts(n, if n.minus then 1 else 0, if n.dot then 1 else 0, if n.dot then [46] else []);
    TailScanned(n.tail);
    var s, sign, w := NumeralText(n), (if n.minus then 1 else 0), |n.whole|;
    var rest := Spelled(n.frac) + TailText(n.tail);
    SpelledRun(n.frac, TailText(n.tail));
    if !n.dot {
      assert rest == TailText(n.tail);
    }
    DotFirst(n.dot, rest, s, sign + w);
    SpelledRun(n.whole, (if n.dot then [46] else []) + rest);
  }

  lemma NumeralSlices(n: Numeral, sign: nat, dot: nat)
    requires GoodNumeral(n) && sign == (if n.minus then 1 else 0) && dot == (if n.dot then 1 else 0)
    ensures var s, w := NumeralText(n), |n.whole|;
      var len := sign + w + dot + |n.frac|;
      && len + |TailText(n.tail)| == |s| && s[len..] == TailText(n.tail)
      && s[sign..sign + w] + s[sign + w + dot..len] == Spelled(n.whole + n.frac)
  {
    hide TailText, NumeralText, GoodNumeral, Spelled;
    NumeralParts(n, sign, dot, if n.dot then [46] else []);
    SpelledJoin(n.whole, n.frac);
  }

  /** strtod takes a whole numeral and reads what it says. */
  lemma NumeralScanned(n: Numeral)
    requires GoodNumeral(n)
    ensures Strtod(NumeralText(n)) == Scanned(|NumeralText(n)|, NumeralValue(n))
  {
    hide *;
    var s, sign, w, f := NumeralText(n), (if n.minus then 1 else 0), |n.whole|, |n.frac|;
    var dot := if n.dot then 1 else 0;
    NumeralHead(n);
    NumeralSign(n);
    NumeralRuns(n);
    NumeralSlices(n, sign, dot);
    TailScanned(n.tail);
    SpelledValue(n.whole + n.frac);
    StrtodParts(s, sign, w, dot, f);
    NumeralMeans(n);
  }

  lemma NumeralMeans(n: Numeral)
    ensures var count: int := Count(n.whole + n.frac);
      NumeralValue(n) == Decimal(if n.minus then -count else count, TailValue(n.tail) - |n.frac|)
  {
    hide Count, TailValue;
  }

  lemma DotFirst(dot: bool, rest: Bytes, s: Bytes, k: nat)
    requires k <= |s| && s[k..] == (if dot then [46] else []) + rest
    requires !dot ==> NoDigitFirst(rest) && (rest != [] ==> rest[0] != 46)
    ensures NoDigitFirst(s[k..]) && (dot <==> k < |s| && s[k] == 46)
  {
    if !dot {
      assert s[k..] == rest;
    }
    assert k < |s| ==> s[k] == s[k..][0];
  }

  lemma NumeralHead(n: Numeral)
    requires GoodNumeral(n)
    ensures n.whole != [] || n.frac != []
    ensures n.frac != [] ==> n.dot
    ensures n.tail.Tail? ==> n.tail.digits != []
    ensures var s := NumeralText(n);
      0 < |s| <= 63 && (s[0] == 45 || IsDigit(s[0])) && (s[0] == 45 <==> n.minus)
  {
  }

  lemma NumeralChars(n: Numeral)
    requires GoodNumeral(n)
    ensures Numeric(NumeralText(n))
  {
    hide Numeric, Spelled, GoodNumeral;
    NumericDigits(n.whole);
    NumericDigits(n.frac);
    NumericSigns();
    var tail := TailText(n.tail);
    if n.tail.Tail? {
      NumericDigits(n.tail.digits);
      var sign := SignText(n.tail.sign);
      NumericJoin(sign, Spelled(n.tail.digits));
      NumericJoin([if n.tail.upper then 69 else 101], sign + Spelled(n.tail.digits));
    }
    var a, d: Bytes := (if n.minus then [45] else []), if n.dot then [46] else [];
    NumericJoin(Spelled(n.frac), tail);
    NumericJoin(d, Spelled(n.frac) + tail);
    NumericJoin(Spelled(n.whole), d + (Spelled(n.frac) + tail));
    NumericJoin(a, Spelled(n.whole) + (d + (Spelled(n.frac) + tail)));
  }

  predicate Numeric(s: Bytes) { forall c <- s :: NumberChar(c) }

  lemma NumericSigns()
    ensures Numeric([]) && Numeric([43]) && Numeric([45]) && Numeric([46]) && Numeric([69]) && Numeric([101])
  {
  }

  lemma NumericDigits(ds: seq<Dec>)
    ensures Numeric(Spelled(ds))
  {
    SpelledValue(ds);
  }

  lemma NumericJoin(a: Bytes, b: Bytes)
    requires Numeric(a) && Numeric(b)
    ensures Numeric(a + b)
  {
  }

  lemma NumeralParses(n: Numeral, r: Bytes)
    requires GoodNumeral(n) && r != [] && !NumberChar(r[0])
    ensures ParseNumber(NumeralText(n) + r) == Ok(NumeralValue(n), r)
  {
    hide NumeralText, GoodNumeral, Strtod, NumberChar, NumeralValue;
    var s := NumeralText(n);
    NumeralHead(n);
    NumeralChars(n);
    assert forall c <- s :: NumberChar(c);
    WindowEnds(s, r, 63);
    NumeralScanned(n);
    assert (s + r)[..|s|] == s && (s + r)[|s|..] == r;
  }

  // ---- and nothing else is read as a number ----

  function DigitsIn(s: Bytes): (ds: seq<Dec>)
    requires forall c <- s :: IsDigit(c)
    ensures |ds| == |s|
  {
    if s == [] then []
    else
      assert s[|s| - 1] in s && IsDigit(s[|s| - 1]);
      var d: Dec := s[|s| - 1] as int - 48;
      DigitsIn(s[..|s| - 1]) + [d]
  }

  lemma {:induction false} DigitsSpelled(s: Bytes)
    requires forall c <- s :: IsDigit(c)
    ensures Spelled(DigitsIn(s)) == s && Count(DigitsIn(s)) == RadixValue(s, 10)
  {
    if s != [] {
      var ds := DigitsIn(s);
      assert ds[..|ds| - 1] == DigitsIn(s[..|s| - 1]);
      DigitsSpelled(s[..|s| - 1]);
    }
  }

  lemma RunDigits(s: Bytes, k: nat)
    requires k <= |s|
    ensures k + DigitRun(s[k..]) <= |s| && forall c <- s[k..k + DigitRun(s[k..])] :: IsDigit(c)
  {
    var n := DigitRun(s[k..]);
    assert s[k..k + n] == s[k..][..n];
  }

  lemma ExponentSpelt(s: Bytes) returns (t: Tail)
    ensures t.Tail? ==> t.digits != []
    ensures Exponent(s) == (|TailText(t)|, TailValue(t)) && |TailText(t)| <= |s| && s[..|TailText(t)|] == TailText(t)
  {
    t := NoTail;
    if Exponent(s).0 != 0 {
      t := ExponentTail(s);
    }
  }

  lemma ExponentTail(s: Bytes) returns (t: Tail)
    requires Exponent(s).0 != 0
    ensures t.Tail? && t.digits != []
    ensures Exponent(s) == (|TailText(t)|, TailValue(t)) && |TailText(t)| <= |s| && s[..|TailText(t)|] == TailText(t)
  {
    hide *;
    var sign, n := ExponentFound(s);
    var d := s[1 + sign..1 + sign + n];
    ExponentSlices(s, sign, n);
    t := TailOf(s[0], s[1..1 + sign], d);
  }

  lemma ExponentFound(s: Bytes) returns (sign: nat, n: nat)
    requires Exponent(s).0 != 0
    ensures s != [] && (s[0] == 101 || s[0] == 69) && sign <= 1 && n > 0 && 1 + sign + n <= |s|
    ensures sign == 1 ==> s[1] == 43 || s[1] == 45
    ensures forall c <- s[1 + sign..1 + sign + n] :: IsDigit(c)
    ensures var v := RadixValue(s[1 + sign..1 + sign + n], 10);
      Exponent(s) == (1 + sign + n, if sign == 1 && s[1] == 45 then -(v as int) else v)
  {
    hide DigitRun, RadixValue;
    sign := SignLength(s[1..]);
    n := DigitRun(s[1 + sign..]);
    RunDigits(s, 1 + sign);
    ExponentUnfold(s, sign, n);
    assert s[1..] != [] && s[1..][0] == s[1];
    if sign == 0 && s[1] == 45 {
      assert false;
    }
  }

  lemma TailOf(c: byte, sign: Bytes, d: Bytes) returns (t: Tail)
    requires (c == 101 || c == 69) && (sign == [] || sign == [43] || sign == [45])
    requires d != [] && forall b <- d :: IsDigit(b)
    ensures t.Tail? && t.digits != [] && TailText(t) == [c] + (sign + d)
    ensures TailValue(t) == if sign == [45] then -(RadixValue(d, 10) as int) else RadixValue(d, 10)
  {
    hide RadixValue, Count, Spelled, DigitsIn;
    DigitsSpelled(d);
    t := Tail(c == 69, if sign == [] then 0 else if sign == [45] then -1 else 1, DigitsIn(d));
  }

  lemma ExponentSlices(s: Bytes, sign: nat, n: nat)
    requires s != [] && 1 + sign + n <= |s|
    ensures s[..1 + sign + n] == [s[0]] + (s[1..1 + sign] + s[1 + sign..1 + sign + n])
    ensures |s[..1 + sign + n]| == 1 + sign + n
    ensures sign == 0 ==> s[1..1 + sign] == []
    ensures sign == 1 ==> s[1..1 + sign] == [s[1]]
  {
  }

  /** What strtod finds: a sign, digits, a dot, digits, and where the exponent may start. */
  lemma StrtodFound(s: Bytes) returns (sign: nat, whole: nat, dot: nat, frac: nat)
    requires Strtod(s).Scanned?
    ensures sign == SignLength(s) && dot <= 1 && whole + frac > 0 && sign + whole + dot + frac <= |s|
    ensures whole == DigitRun(s[sign..]) && dot == if sign + whole < |s| && s[sign + whole] == 46 then 1 else 0
    ensures frac == if dot == 1 then DigitRun(s[sign + whole + 1..]) else 0
  {
    hide Exponent, RadixValue, DigitRun;
    sign := SignLength(s);
    whole := DigitRun(s[sign..]);
    dot := if sign + whole < |s| && s[sign + whole] == 46 then 1 else 0;
    frac := if dot == 1 then DigitRun(s[sign + whole + 1..]) else 0;
  }

  /** Whatever strtod takes of a text that starts like a JSON number is a numeral. */
  lemma StrtodSpelt(s: Bytes) returns (n: Numeral)
    requires s != [] && (s[0] == 45 || IsDigit(s[0])) && Strtod(s).Scanned? && |s| <= 63
    ensures GoodNumeral(n) && NumeralText(n) == s[..Strtod(s).length] && NumeralValue(n) == Strtod(s).num
  {
    hide *;
    var sign, whole, dot, frac := StrtodFound(s);
    var len := sign + whole + dot + frac;
    var t := ExponentSpelt(s[len..]);
    FirstDigit(s);
    FoundDigits(s, sign, whole, dot, frac);
    n := NumeralFrom(s, sign, whole, dot, frac, t);
    StrtodParts(s, sign, whole, dot, frac);
  }

  lemma FoundDigits(s: Bytes, sign: nat, whole: nat, dot: nat, frac: nat)
    requires sign + whole + dot + frac <= |s| && dot <= 1 && whole == DigitRun(s[sign..])
    requires frac == if dot == 1 then DigitRun(s[sign + whole + 1..]) else 0
    ensures forall c <- s[sign..sign + whole] :: IsDigit(c)
    ensures forall c <- s[sign + whole + dot..sign + whole + dot + frac] :: IsDigit(c)
  {
    hide DigitRun, IsDigit;
    RunDigits(s, sign);
    if dot == 1 {
      RunDigits(s, sign + whole + 1);
    }
  }

  lemma NumeralFrom(s: Bytes, sign: nat, whole: nat, dot: nat, frac: nat, t: Tail) returns (n: Numeral)
    requires sign + whole + dot + frac + |TailText(t)| <= |s| <= 63 && sign <= 1 && dot <= 1 && whole + frac > 0
    requires (sign == 1 <==> s[0] == 45) && (dot == 1 ==> s[sign + whole] == 46) && (dot == 0 ==> frac == 0)
    requires sign == 0 ==> whole > 0
    requires s[sign + whole + dot + frac..][..|TailText(t)|] == TailText(t) && (t.Tail? ==> t.digits != [])
    requires forall c <- s[sign..sign + whole] :: IsDigit(c)
    requires forall c <- s[sign + whole + dot..sign + whole + dot + frac] :: IsDigit(c)
    ensures var len := sign + whole + dot + frac;
      var digits := s[sign..sign + whole] + s[sign + whole + dot..len];
      && GoodNumeral(n) && NumeralText(n) == s[..len + |TailText(t)|]
      && NumeralValue(n) == Decimal(Signed(s, RadixValue(digits, 10)), TailValue(t) - frac)
  {
    hide RadixValue, Count, Spelled, DigitsIn, TailText, TailValue, IsDigit;
    var w, f := s[sign..sign + whole], s[sign + whole + dot..sign + whole + dot + frac];
    DigitsSpelled(w);
    DigitsSpelled(f);
    DigitsSpelled(w + f);
    DigitsJoin(w, f);
    n := Numeral(sign == 1, DigitsIn(w), dot == 1, DigitsIn(f), t);
    Assembled(s, sign, whole, dot, frac, TailText(t));
  }

  lemma {:induction false} DigitsJoin(a: Bytes, b: Bytes)
    requires (forall c <- a :: IsDigit(c)) && forall c <- b :: IsDigit(c)
    ensures DigitsIn(a + b) == DigitsIn(a) + DigitsIn(b)
  {
    if b == [] {
      assert a + b == a;
    } else {
      assert (a + b)[..|a + b| - 1] == a + b[..|b| - 1];
      DigitsJoin(a, b[..|b| - 1]);
    }
  }

  lemma FirstDigit(s: Bytes)
    requires s != [] && (s[0] == 45 || IsDigit(s[0]))
    ensures SignLength(s) <= 1 && (SignLength(s) == 1 <==> s[0] == 45)
    ensures SignLength(s) == 0 ==> DigitRun(s[SignLength(s)..]) > 0
  {
  }

  predicate At(s: Bytes, a: nat, c: nat, x: Bytes) { a <= c <= |s| && s[a..c] == x }

  lemma AtOne(s: Bytes, k: nat, n: nat, c: byte)
    requires n <= 1 && k + n <= |s| && (n == 1 ==> s[k] == c)
    ensures At(s, k, k + n, if n == 1 then [c] else [])
  {
  }

  lemma AtBehind(s: Bytes, k: nat, x: Bytes)
    requires k + |x| <= |s| && s[k..][..|x|] == x
    ensures At(s, k, k + |x|, x)
  {
    assert s[k..k + |x|] == s[k..][..|x|];
  }

  lemma AtJoin(s: Bytes, a: nat, b: nat, c: nat, x: Bytes, y: Bytes)
    requires At(s, a, b, x) && At(s, b, c, y)
    ensures At(s, a, c, x + y)
  {
  }

  lemma Assembled(s: Bytes, sign: nat, whole: nat, dot: nat, frac: nat, tail: Bytes)
    requires sign + whole + dot + frac + |tail| <= |s| && sign <= 1 && dot <= 1
    requires (sign == 1 ==> s[0] == 45) && (dot == 1 ==> s[sign + whole] == 46)
    requires s[sign + whole + dot + frac..][..|tail|] == tail
    ensures var len := sign + whole + dot + frac;
      s[..len + |tail|] == (if sign == 1 then [45] else []) + (s[sign..sign + whole]
        + ((if dot == 1 then [46] else []) + (s[sign + whole + dot..len] + tail)))
  {
    hide *;
    AtOne(s, 0, sign, 45);
    AtSlice(s, sign, sign + whole);
    AtOne(s, sign + whole, dot, 46);
    AtSlice(s, sign + whole + dot, sign + whole + dot + frac);
    AtBehind(s, sign + whole + dot + frac, tail);
    AtFive(s, sign, sign + whole, sign + whole + dot, sign + whole + dot + frac, sign + whole + dot + frac + |tail|,
           if sign == 1 then [45] else [], s[sign..sign + whole], if dot == 1 then [46] else [],
           s[sign + whole + dot..sign + whole + dot + frac], tail);
  }

  lemma AtSlice(s: Bytes, a: nat, c: nat)
    requires a <= c <= |s|
    ensures At(s, a, c, s[a..c])
  {
  }

  lemma AtFive(s: Bytes, i: nat, j: nat, k: nat, l: nat, m: nat, a: Bytes, b: Bytes, c: Bytes, d: Bytes, e: Bytes)
    requires At(s, 0, i, a) && At(s, i, j, b) && At(s, j, k, c) && At(s, k, l, d) && At(s, l, m, e)
    ensures m <= |s| && s[..m] == a + (b + (c + (d + e)))
  {
    hide At;
    AtJoin(s, k, l, m, d, e);
    AtJoin(s, j, k, m, c, d + e);
    AtJoin(s, i, j, m, b, c + (d + e));
    AtJoin(s, 0, i, m, a, b + (c + (d + e)));
    AtFirst(s, m, a + (b + (c + (d + e))));
  }

  lemma AtFirst(s: Bytes, m: nat, x: Bytes)
    requires At(s, 0, m, x)
    ensures m <= |s| && s[..m] == x
  {
  }

  lemma NumberSpelt(s: Bytes) returns (n: Numeral)
    requires s != [] && (s[0] == 45 || IsDigit(s[0])) && ParseNumber(s).Ok?
    ensures GoodNumeral(n) && s == NumeralText(n) + ParseNumber(s).rest && NumeralValue(n) == ParseNumber(s).value
  {
    hide Strtod, NumeralText, GoodNumeral, NumeralValue;
    var w := s[..Window(s, WINDOW)];
    assert w != [] && w[0] == s[0];
    n := StrtodSpelt(w);
    var k := Strtod(w).length;
    assert w[..k] == s[..k] && s == s[..k] + s[k..];
  }

  // ---- strings are read piece by piece ----

  lemma DigitSpelt(c: byte, d: int)
    requires Spells(c, d)
    ensures HexDigit(c) == Some(d) && HexByte(c)
  {
  }

  lemma DigitSpells(c: byte)
    ensures HexDigit(c).Some? <==> HexByte(c)
    ensures HexDigit(c).Some? ==> Spells(c, HexDigit(c).value)
  {
  }

  lemma UnitSpelt(h: Bytes, u: int)
    requires SpellsUnit(h, u)
    ensures IsHex4(h) && HexValue(h) == u && Hex4(h) == u
  {
    hide Spells, HexDigit;
    DigitSpelt(h[0], u / 4096);
    DigitSpelt(h[1], u / 256 % 16);
    DigitSpelt(h[2], u / 16 % 16);
    DigitSpelt(h[3], u % 16);
    Nibbles(u);
  }

  lemma Nibbles(u: nat)
    ensures u == u / 4096 * 4096 + u / 256 % 16 * 256 + u / 16 % 16 * 16 + u % 16
  {
    assert u / 16 / 16 == u / 256 && u / 256 / 16 == u / 4096;
  }

  lemma UnitSpells(h: Bytes)
    requires IsHex4(h)
    ensures SpellsUnit(h, HexValue(h))
  {
    hide Spells, HexDigit;
    DigitSpells(h[0]);
    DigitSpells(h[1]);
    DigitSpells(h[2]);
    DigitSpells(h[3]);
    var a, b, c, d := HexDigit(h[0]).value, HexDigit(h[1]).value, HexDigit(h[2]).value, HexDigit(h[3]).value;
    SpellsSmall(h[0], a);
    SpellsSmall(h[1], b);
    SpellsSmall(h[2], c);
    SpellsSmall(h[3], d);
    NibblesOf(a, b, c, d);
  }

  lemma SpellsSmall(c: byte, d: int)
    requires Spells(c, d)
    ensures 0 <= d < 16
  {
  }

  lemma NibblesOf(a: nat, b: nat, c: nat, d: nat)
    requires a < 16 && b < 16 && c < 16 && d < 16
    ensures var u := a * 4096 + b * 256 + c * 16 + d;
      u / 4096 == a && u / 256 % 16 == b && u / 16 % 16 == c && u % 16 == d
  {
    var u := a * 4096 + b * 256 + c * 16 + d;
    assert u / 16 == a * 256 + b * 16 + c;
    assert u / 256 == a * 16 + b;
  }

  lemma BadSpelt(h: Bytes)
    requires |h| == 4
    ensures (exists i | 0 <= i < 4 :: !HexByte(h[i])) <==> !IsHex4(h)
    ensures !IsHex4(h) ==> Hex4(h) == 0
  {
    hide HexDigit, HexByte;
    forall i | 0 <= i < 4
      ensures HexDigit(h[i]).Some? <==> HexByte(h[i])
    {
      DigitSpells(h[i]);
    }
  }

  lemma NamedShort(c: byte)
    ensures Named(c) == ShortEscape(c)
  {
  }

  lemma UnitSlices(h: Bytes, r: Bytes)
    requires |h| == 4
    ensures var b := [92, 117] + h + r;
      |b| >= 6 && b[0] == 92 && b[1] == 117 && b[2..6] == h && b[6..] == r && b[..6] == [92, 117] + h
  {
  }

  lemma UnitTaken(u: nat, h: Bytes, r: Bytes)
    requires GoodPiece(Code(u, h)) || (u == 0 && GoodPiece(BadCode(h)))
    ensures UnescapeTurn([92, 117] + h + r) == Turn(6, Utf8(u)) && ([92, 117] + h + r)[6..] == r
  {
    hide Utf8, HexValue, Spells, HexByte, HexDigit, SpellsUnit;
    if GoodPiece(Code(u, h)) {
      UnitSize(h, u);
      UnitSpelt(h, u);
    } else {
      BadSpelt(h);
    }
    UnitSlices(h, r);
  }

  lemma UnitSize(h: Bytes, u: int)
    requires SpellsUnit(h, u)
    ensures |h| == 4 && 0 <= u < 65536
  {
  }

  lemma PairTaken(cp: nat, hi: Bytes, lo: Bytes, r: Bytes)
    requires GoodPiece(CodePair(cp, hi, lo))
    ensures var s := [92, 117] + (hi + ([92, 117] + lo)) + r;
      UnescapeTurn(s) == Turn(12, Utf8(cp)) && s[12..] == r
  {
    hide Utf8, HexValue, Hex4, Spells, HexDigit, SpellsUnit, UnescapeTurn, Combine;
    var u, v := 0xD800 + (cp - 0x10000) / 1024, 0xDC00 + (cp - 0x10000) % 1024;
    UnitSize(hi, u);
    UnitSize(lo, v);
    UnitSpelt(hi, u);
    UnitSpelt(lo, v);
    PairSlices(hi, lo, r);
    SurrogatePairs(cp, u, v);
    PairTurn([92, 117] + (hi + ([92, 117] + lo)) + r, u, v);
  }

  lemma PairTurn(b: Bytes, u: nat, v: nat)
    requires |b| >= 12 && b[0] == 92 && b[1] == 117 && b[6] == 92 && b[7] == 117
    requires Hex4(b[2..6]) == u && High(u) && Hex4(b[8..12]) == v && Low(v)
    ensures UnescapeTurn(b) == Turn(12, Utf8(Combine(u, v)))
  {
    hide Utf8, Hex4, Combine;
  }

  lemma PairSlices(hi: Bytes, lo: Bytes, r: Bytes)
    requires |hi| == 4 && |lo| == 4
    ensures var b := [92, 117] + (hi + ([92, 117] + lo)) + r;
      && |b| >= 12 && b[0] == 92 && b[1] == 117 && b[2..6] == hi && b[6] == 92 && b[7] == 117 && b[8..12] == lo
      && b[12..] == r && b[..12] == [92, 117] + (hi + ([92, 117] + lo))
  {
  }

  /** One turn of pass two takes one piece and writes what it means. */
  lemma PieceTaken(p: Piece, r: Bytes)
    requires GoodPiece(p) && (p.Lone? ==> r == [])
    ensures PieceText(p) + r != [] && (PieceText(p) + r)[|PieceText(p)|..] == r
    ensures UnescapeTurn(PieceText(p) + r) == Turn(|PieceText(p)|, PieceBytes(p))
  {
    hide Utf8, Utf16Literal, SpellsUnit, Spells, Combine;
    match p
    case Code(u, h) => UnitSize(h, u); UnitTaken(u, h, r);
    case CodePair(cp, hi, lo) =>
      UnitSize(hi, 0xD800 + (cp - 0x10000) / 1024);
      UnitSize(lo, 0xDC00 + (cp - 0x10000) % 1024);
      PairTaken(cp, hi, lo, r);
    case BadCode(h) => UnitTaken(0, h, r); ZeroByte();
    case Escaped(c) => NamedShort(c);
    case _ =>
  }

  lemma ZeroByte()
    ensures Utf8(0) == [0]
  {
  }

  lemma {:induction false} PiecesTaken(ps: seq<Piece>)
    requires GoodPieces(ps)
    ensures Unescape(PiecesText(ps)) == Done(PiecesBytes(ps))
  {
    hide UnescapeTurn, PieceText, PieceBytes, GoodPiece;
    if ps != [] {
      assert ps[0].Lone? ==> ps[1..] == [];
      PieceTaken(ps[0], PiecesText(ps[1..]));
      PiecesTaken(ps[1..]);
    }
  }

  lemma {:induction false} EnclosedCloses(body: Bytes, r: Bytes)
    ensures Enclosed(body) <==> ClosingQuote(body + ([34] + r)) == Some(|body|)
  {
    var s := body + ([34] + r);
    if body == [] {
      assert s == [34] + r;
    } else if body[0] == 92 && |body| == 1 {
      assert s[0] == 92;
    } else if body[0] == 92 {
      EnclosedCloses(body[2..], r);
      assert s[2..] == body[2..] + ([34] + r);
    } else {
      EnclosedCloses(body[1..], r);
      assert s[1..] == body[1..] + ([34] + r);
    }
  }

  lemma StringTaken(ps: seq<Piece>, r: Bytes)
    requires GoodString(ps)
    ensures ParseString(WriteString(ps, r)) == Ok(PiecesBytes(ps), r)
  {
    hide ClosingQuote, Unescape, PiecesText, PiecesBytes, ParseString, GoodPieces, Enclosed;
    EnclosedCloses(PiecesText(ps), r);
    PiecesTaken(ps);
    StringRead(PiecesText(ps), r);
  }

  // ---- and nothing else is read as a string ----

  lemma TurnSpelt(b: Bytes) returns (p: Piece)
    requires b != [] && UnescapeTurn(b).Turn?
    ensures var t := UnescapeTurn(b);
      GoodPiece(p) && PieceText(p) == b[..t.consumed] && PieceBytes(p) == t.written && (p.Lone? ==> |b| == 1)
  {
    hide Utf8, Utf16Literal;
    if b[0] != 92 {
      p := Plain(b[0]);
    } else if |b| == 1 {
      p := Lone;
    } else if b[1] == 117 {
      p := CodeSpelt(b);
    } else {
      NamedShort(b[1]);
      p := Escaped(b[1]);
    }
  }

  lemma CodeSpelt(b: Bytes) returns (p: Piece)
    requires |b| >= 2 && b[0] == 92 && b[1] == 117 && Utf16Literal(b).Turn?
    ensures var t := Utf16Literal(b);
      GoodPiece(p) && PieceText(p) == b[..t.consumed] && PieceBytes(p) == t.written && !p.Lone?
  {
    hide Utf8, HexValue, Spells, HexByte, HexDigit, SpellsUnit, IsHex4;
    var h := b[2..6];
    BadSpelt(h);
    ZeroByte();
    if !IsHex4(h) {
      p := BadCode(h);
      assert b[..6] == [92, 117] + h;
    } else {
      UnitSpells(h);
      UnitSpelt(h, HexValue(h));
      if High(HexValue(h)) {
        p := PairSpelt(b);
      } else {
        p := Code(HexValue(h), h);
        assert b[..6] == [92, 117] + h;
      }
    }
  }

  lemma PairSpelt(b: Bytes) returns (p: Piece)
    requires |b| >= 6 && b[0] == 92 && b[1] == 117 && Utf16Literal(b).Turn? && High(Hex4(b[2..6]))
    ensures var t := Utf16Literal(b);
      GoodPiece(p) && PieceText(p) == b[..t.consumed] && PieceBytes(p) == t.written && !p.Lone?
  {
    hide Utf8, HexValue, Spells, HexByte, HexDigit, SpellsUnit, IsHex4;
    var hi, lo := b[2..6], b[8..12];
    var u, v := Hex4(hi), Hex4(lo);
    BadSpelt(hi);
    BadSpelt(lo);
    UnitSpells(hi);
    UnitSpells(lo);
    var cp := Combine(u, v);
    SurrogatePairs(cp, u, v);
    p := CodePair(cp, hi, lo);
    assert b[..12] == [92, 117] + (hi + ([92, 117] + lo));
  }

  lemma {:induction false} PiecesSpelt(b: Bytes) returns (ps: seq<Piece>)
    requires Unescape(b).Done?
    ensures GoodPieces(ps) && PiecesText(ps) == b && PiecesBytes(ps) == Unescape(b).bytes
    decreases |b|
  {
    hide UnescapeTurn, PieceText, PieceBytes, GoodPiece;
    ps := [];
    if b != [] {
      var p := TurnSpelt(b);
      var n := UnescapeTurn(b).consumed;
      var tail := PiecesSpelt(b[n..]);
      ps := [p] + tail;
      assert ps[1..] == tail && b == b[..n] + b[n..];
      if p.Lone? {
        assert b[n..] == [];
        NothingLeft(tail);
      }
    }
  }

  lemma NothingLeft(ps: seq<Piece>)
    requires GoodPieces(ps) && PiecesText(ps) == []
    ensures ps == []
  {
  }

  lemma StringSpelt(s: Bytes) returns (ps: seq<Piece>)
    requires s != [] && ParseString(s).Ok?
    ensures GoodString(ps) && s == WriteString(ps, ParseString(s).rest) && PiecesBytes(ps) == ParseString(s).value
  {
    hide ClosingQuote, Unescape, PiecesText, PiecesBytes, GoodPieces, Enclosed;
    var k := ClosingQuote(s[1..]).value;
    var body, r := s[1..1 + k], s[k + 2..];
    assert s[1 + k] == s[1..][k] == 34;
    assert s[1..] == body + ([34] + r) && s == [34] + s[1..];
    EnclosedCloses(body, r);
    ps := PiecesSpelt(body);
  }

  // ---- every document is read as what it stands for ----

  /** What may stand behind a value: it does not go on with a number. */
  predicate Ends(r: Bytes) { Terminated(r) && !NumberChar(r[0]) }

  /** A number must end where its text does; any other value ends by itself. */
  predicate Behind(doc: Doc, r: Bytes) { Terminated(r) && (doc.NumberDoc? ==> Ends(r)) }

  lemma {:induction false} GapSkipped(w: Bytes, r: Bytes)
    requires Gap(w) && Terminated(r) && (r[0] > 32 || |r| == 1)
    ensures Terminated(w + r) && SkipSpace(w + r) == r
  {
    if w == [] {
      assert w + r == r;
    } else {
      assert (w + r)[1..] == w[1..] + r && w[0] in w;
      assert forall b <- w[1..] :: b in w;
      GapSkipped(w[1..], r);
    }
  }

  lemma GapEnds(w: Bytes, r: Bytes)
    requires Gap(w) && Ends(r)
    ensures Ends(w + r)
  {
    if w == [] {
      assert w + r == r;
    } else {
      assert w[0] in w;
    }
  }

  lemma CloserEnds(w: Bytes, c: byte, r: Bytes)
    requires Gap(w) && Terminated(r) && c in {44, 58, 93, 125}
    ensures Ends(w + ([c] + r)) && SkipSpace(w + ([c] + r)) == [c] + r
  {
    TerminatedAfter([c], r);
    GapSkipped(w, [c] + r);
    GapEnds(w, [c] + r);
  }

  lemma WriteHead(doc: Doc, r: Bytes)
    requires Good(doc)
    ensures Write(doc, r) != [] && 32 < Write(doc, r)[0] < 128 && Write(doc, r)[0] != 93 && Write(doc, r)[0] != 125
  {
    hide NumeralText, GoodNumeral;
    if doc.NumberDoc? {
      NumeralHead(doc.n);
    }
  }

  lemma ScalarTaken(doc: Doc, d: nat, r: Bytes)
    requires Good(doc) && Behind(doc, r)
    requires doc.NullDoc? || doc.FalseDoc? || doc.TrueDoc? || doc.NumberDoc? || doc.StringDoc?
    ensures Terminated(Write(doc, r)) && ParseValue(Write(doc, r), d) == Ok(Value(doc), r)
  {
    hide ParseString, ParseNumber, ParseArray, ParseObject, Word, NumeralText, GoodNumeral, NumeralValue, GoodString;
    match doc
    case NullDoc => WordRead(NULL_WORD, Null, d, r);
    case FalseDoc => WordRead(FALSE_WORD, False, d, r);
    case TrueDoc => WordRead(TRUE_WORD, True, d, r);
    case NumberDoc(n) =>
      NumeralHead(n);
      NumeralParses(n, r);
      TerminatedAfter(NumeralText(n), r);
    case StringDoc(ps) =>
      StringTaken(ps, r);
      TerminatedAfter([34], r);
      TerminatedAfter(PiecesText(ps), [34] + r);
      TerminatedAfter([34], PiecesText(ps) + ([34] + r));
    case _ =>
  }

  lemma {:induction false} ValueTaken(doc: Doc, d: nat, r: Bytes)
    requires Good(doc) && Behind(doc, r) && (Depth(doc) == 0 || d + Depth(doc) <= 1000)
    ensures Terminated(Write(doc, r)) && ParseValue(Write(doc, r), d) == Ok(Value(doc), r)
    decreases doc, 1
  {
    hide ParseValue, ParseItems, ParseMembers, SkipSpace, Write, Value, Depth;
    hide WriteItems, WriteMembers, ItemValues, MemberValues, GoodItems, GoodMembers;
    match doc
    case EmptyArray(gap) =>
      EmptyMeans(gap, r);
      CloserEnds(gap, 93, r);
      EmptyTaken(91, 93, gap, d, r);
    case ArrayDoc(items) =>
      ArrayMeans(items, r);
      ItemsTaken(items, d + 1, r);
      OpenTaken(91, WriteItems(items, r), d, ItemValues(items), r);
    case EmptyObject(gap) =>
      EmptyMeans(gap, r);
      CloserEnds(gap, 125, r);
      EmptyTaken(123, 125, gap, d, r);
    case ObjectDoc(members) =>
      ObjectMeans(members, r);
      MembersTaken(members, d + 1, r);
      OpenTaken(123, WriteMembers(members, r), d, MemberValues(members), r);
    case _ => ScalarTaken(doc, d, r);
  }

  lemma OpenTaken(open: byte, t: Bytes, d: nat, c: Chain, r: Bytes)
    requires Terminated(t) && d < 1000
    requires open == 91 ==> SkipSpace(t)[0] != 93 && ParseItems(SkipSpace(t), d + 1) == Ok(c, r)
    requires open == 123 ==> SkipSpace(t)[0] != 125 && ParseMembers(SkipSpace(t), d + 1) == Ok(c, r)
    requires open == 91 || open == 123
    ensures Terminated([open] + t)
    ensures ParseValue([open] + t, d) == Ok(if open == 91 then Array(c) else Object(c), r)
  {
    hide ParseValue, ParseItems, ParseMembers, SkipSpace;
    TerminatedAfter([open], t);
    Uncons(open, t);
    if open == 91 {
      ArrayUnfold([open] + t, d);
    } else {
      ObjectUnfold([open] + t, d);
    }
  }

  lemma EmptyTaken(open: byte, close: byte, gap: Bytes, d: nat, r: Bytes)
    requires (open == 91 && close == 93) || (open == 123 && close == 125)
    requires Terminated(gap + ([close] + r)) && SkipSpace(gap + ([close] + r)) == [close] + r && d < 1000
    ensures Terminated([open] + (gap + ([close] + r)))
    ensures ParseValue([open] + (gap + ([close] + r)), d) == Ok(if open == 91 then Array(End) else Object(End), r)
  {
    hide ParseValue, ParseItems, ParseMembers, SkipSpace;
    var t := gap + ([close] + r);
    TerminatedAfter([open], t);
    Uncons(open, t);
    Uncons(close, r);
    if open == 91 {
      ArrayUnfold([open] + t, d);
    } else {
      ObjectUnfold([open] + t, d);
    }
  }

  lemma {:induction false} ItemsTaken(items: Items, d: nat, r: Bytes)
    requires GoodItems(items) && Terminated(r) && (ItemsDepth(items) == 0 || d + ItemsDepth(items) <= 1000)
    ensures Terminated(WriteItems(items, r))
    ensures var s := SkipSpace(WriteItems(items, r));
      s[0] > 32 && s[0] != 93 && ParseItems(s, d) == Ok(ItemValues(items), r)
    decreases items, 0
  {
    hide ParseValue, ParseItems, SkipSpace, Write, Good, Depth;
    var close := if items.OneMore? then [44] + WriteItems(items.next, r) else [93] + r;
    if items.OneMore? {
      ItemsTaken(items.next, d, r);
      CloserEnds(items.after, 44, WriteItems(items.next, r));
      Uncons(44, WriteItems(items.next, r));
    } else {
      CloserEnds(items.after, 93, r);
      Uncons(93, r);
    }
    ValueTaken(items.doc, d, items.after + close);
    WriteHead(items.doc, items.after + close);
    var s := Write(items.doc, items.after + close);
    GapSkipped(items.before, s);
    ItemsUnfold(s, d);
  }

  /** A key and its colon, up to the value behind them. */
  lemma KeyTaken(key: Key, s: Bytes)
    requires GoodKey(key) && Terminated(s) && (s[0] > 32 || |s| == 1)
    ensures Terminated(WriteKey(key, s))
    ensures SkipSpace(WriteKey(key, s))[0] == 34
    ensures ParseName(SkipSpace(WriteKey(key, s))) == Ok(PiecesBytes(key.ps), s)
  {
    hide ParseString, SkipSpace, PiecesText, PiecesBytes, GoodString, ParseName;
    GapSkipped(key.behind, s);
    CloserEnds(key.middle, 58, key.behind + s);
    var rest := key.middle + ([58] + (key.behind + s));
    var text := WriteString(key.ps, rest);
    StringTaken(key.ps, rest);
    TerminatedAfter([34], rest);
    TerminatedAfter(PiecesText(key.ps), [34] + rest);
    TerminatedAfter([34], PiecesText(key.ps) + ([34] + rest));
    GapSkipped(key.before, text);
    NameUnfold(text);
    Uncons(58, key.behind + s);
  }

  lemma {:induction false} MembersTaken(members: Members, d: nat, r: Bytes)
    requires GoodMembers(members) && Terminated(r) && (MembersDepth(members) == 0 || d + MembersDepth(members) <= 1000)
    ensures Terminated(WriteMembers(members, r))
    ensures var s := SkipSpace(WriteMembers(members, r));
      s[0] == 34 && ParseMembers(s, d) == Ok(MemberValues(members), r)
    decreases members, 0
  {
    hide ParseValue, ParseMembers, ParseName, SkipSpace, Write, WriteKey, Good, GoodKey, Depth, PiecesBytes;
    var close := if members.NextEntry? then [44] + WriteMembers(members.next, r) else [125] + r;
    if members.NextEntry? {
      MembersTaken(members.next, d, r);
      CloserEnds(members.after, 44, WriteMembers(members.next, r));
      Uncons(44, WriteMembers(members.next, r));
    } else {
      CloserEnds(members.after, 125, r);
      Uncons(125, r);
    }
    ValueTaken(members.doc, d, members.after + close);
    WriteHead(members.doc, members.after + close);
    var u := Write(members.doc, members.after + close);
    KeyTaken(members.key, u);
    MembersUnfold(SkipSpace(WriteKey(members.key, u)), d);
  }

  // ---- and nothing else is read at all ----

  lemma {:induction false} GapSplit(s: Bytes) returns (w: Bytes)
    requires Sealed(s)
    ensures Gap(w) && s == w + SkipSpace(s) && Sealed(SkipSpace(s))
    decreases |s|
  {
    hide Sealed, Gap, SkipSpace;
    w := [];
    SpaceOnce(s);
    if s[0] <= 32 && |s| > 1 {
      SealedSuffix(s, 0);
      SealedSuffix(s, 1);
      var v := GapSplit(s[1..]);
      w := [s[0]] + v;
      GapCons(s, v, SkipSpace(s[1..]));
    } else {
      assert s == [] + s;
    }
  }

  lemma SpaceOnce(s: Bytes)
    requires Sealed(s)
    ensures Gap([])
    ensures s[0] <= 32 && |s| > 1 ==> Terminated(s[1..]) && SkipSpace(s) == SkipSpace(s[1..])
    ensures !(s[0] <= 32 && |s| > 1) ==> SkipSpace(s) == s
  {
  }

  lemma GapCons(s: Bytes, v: Bytes, t: Bytes)
    requires s != [] && 0 < s[0] <= 32 && Gap(v) && s[1..] == v + t
    ensures Gap([s[0]] + v) && s == [s[0]] + v + t
  {
  }

  lemma RestSealed(s: Bytes, r: Bytes, a: Bytes)
    requires Sealed(s) && s == a + r && r != []
    ensures Sealed(r)
  {
    assert s[|a|..] == r;
    SealedSuffix(s, |a|);
  }

  lemma WordSpelt(s: Bytes, w: Bytes)
    requires Terminated(s) && w != [] && NUL !in w && Word(s, w)
    ensures s == w + s[|w|..]
  {
    StartsWithLength(s, w);
  }

  lemma ScalarSpelt(s: Bytes, d: nat) returns (doc: Doc)
    requires Sealed(s) && ParseValue(s, d).Ok? && s[0] != 91 && s[0] != 123
    ensures Good(doc) && Depth(doc) == 0 && Value(doc) == ParseValue(s, d).value
    ensures s == Write(doc, ParseValue(s, d).rest)
  {
    hide ParseString, ParseNumber, GoodNumeral, NumeralText, NumeralValue, GoodString, PiecesText, PiecesBytes, Word;
    if Word(s, NULL_WORD) {
      WordSpelt(s, NULL_WORD);
      doc := NullDoc;
    } else if Word(s, FALSE_WORD) {
      WordSpelt(s, FALSE_WORD);
      doc := FalseDoc;
    } else if Word(s, TRUE_WORD) {
      WordSpelt(s, TRUE_WORD);
      doc := TrueDoc;
    } else if s[0] == 34 {
      var ps := StringSpelt(s);
      doc := StringDoc(ps);
    } else {
      var n := NumberSpelt(s);
      doc := NumberDoc(n);
    }
  }

  lemma {:induction false} WriteAppend(doc: Doc, r: Bytes, x: Bytes)
    ensures Write(doc, r) + x == Write(doc, r + x)
    decreases doc, 1
  {
    hide NumeralText, PiecesText;
    match doc
    case StringDoc(ps) =>
      Carry3([34], PiecesText(ps), [34] + r, x);
      Carry2([34], r, x);
    case EmptyArray(gap) =>
      Carry3([91], gap, [93] + r, x);
      Carry2([93], r, x);
    case ArrayDoc(items) =>
      ItemsAppend(items, r, x);
      Carry2([91], WriteItems(items, r), x);
    case EmptyObject(gap) =>
      Carry3([123], gap, [125] + r, x);
      Carry2([125], r, x);
    case ObjectDoc(members) =>
      MembersAppend(members, r, x);
      Carry2([123], WriteMembers(members, r), x);
    case NumberDoc(n) => Carry2(NumeralText(n), r, x);
    case NullDoc => Carry2([110, 117, 108, 108], r, x);
    case FalseDoc => Carry2([102, 97, 108, 115, 101], r, x);
    case TrueDoc => Carry2([116, 114, 117, 101], r, x);
  }

  lemma AfterAppend(after: Bytes, c: byte, r: Bytes, x: Bytes)
    ensures after + ([c] + r) + x == after + ([c] + (r + x))
  {
    Carry3(after, [c], r, x);
  }

  lemma {:induction false} ItemsAppend(items: Items, r: Bytes, x: Bytes)
    ensures WriteItems(items, r) + x == WriteItems(items, r + x)
    decreases items, 0
  {
    hide Write;
    var more := if items.OneMore? then [44] + WriteItems(items.next, r) else [93] + r;
    WriteAppend(items.doc, items.after + more, x);
    Carry2(items.before, Write(items.doc, items.after + more), x);
    if items.OneMore? {
      ItemsAppend(items.next, r, x);
      AfterAppend(items.after, 44, WriteItems(items.next, r), x);
    } else {
      AfterAppend(items.after, 93, r, x);
    }
  }

  lemma KeyAppend(key: Key, r: Bytes, x: Bytes)
    ensures WriteKey(key, r) + x == WriteKey(key, r + x)
  {
    hide PiecesText;
    var rest := key.middle + ([58] + (key.behind + r));
    Carry4(key.before, [34], PiecesText(key.ps), [34] + rest, x);
    Carry2([34], rest, x);
    AfterAppend(key.middle, 58, key.behind + r, x);
    Carry2(key.behind, r, x);
  }

  lemma {:induction false} MembersAppend(members: Members, r: Bytes, x: Bytes)
    ensures WriteMembers(members, r) + x == WriteMembers(members, r + x)
    decreases members, 0
  {
    hide Write, WriteKey;
    var more := if members.NextEntry? then [44] + WriteMembers(members.next, r) else [125] + r;
    WriteAppend(members.doc, members.after + more, x);
    KeyAppend(members.key, Write(members.doc, members.after + more), x);
    if members.NextEntry? {
      MembersAppend(members.next, r, x);
      AfterAppend(members.after, 44, WriteMembers(members.next, r), x);
    } else {
      AfterAppend(members.after, 125, r, x);
    }
  }

  lemma WrittenSealed(s: Bytes, doc: Doc, r: Bytes)
    requires Sealed(s) && s == Write(doc, r) && r != []
    ensures Sealed(r)
  {
    hide Write, Sealed;
    WriteAppend(doc, [], r);
    assert [] + r == r;
    RestSealed(s, r, Write(doc, []));
  }

  /** Where a value, a gap and one more byte have been read, that byte and the rest. */
  lemma GapThen(s: Bytes) returns (w: Bytes)
    requires Sealed(s) && SkipSpace(s)[0] != 0
    ensures var t := SkipSpace(s);
      Gap(w) && |t| > 1 && s == w + ([t[0]] + t[1..]) && Sealed(t[1..])
  {
    hide Sealed, SkipSpace;
    w := GapSplit(s);
    var t := SkipSpace(s);
    SealedSuffix(t, 0);
    SealedSuffix(t, 1);
    assert t == [t[0]] + t[1..];
  }

  lemma {:induction false} ValueSpelt(s: Bytes, d: nat) returns (doc: Doc)
    requires Sealed(s) && ParseValue(s, d).Ok?
    ensures Good(doc) && Value(doc) == ParseValue(s, d).value && s == Write(doc, ParseValue(s, d).rest)
    ensures Depth(doc) == 0 || d + Depth(doc) <= 1000
    ensures Sealed(ParseValue(s, d).rest)
    decreases |s|, 1
  {
    hide ParseValue, ParseItems, ParseMembers, SkipSpace, Sealed;
    if s[0] == 91 {
      doc := ArraySpelt(s, d);
    } else if s[0] == 123 {
      doc := ObjectSpelt(s, d);
    } else {
      doc := ScalarSpelt(s, d);
    }
    WrittenSealed(s, doc, ParseValue(s, d).rest);
  }

  lemma Opened(s: Bytes)
    requires Sealed(s) && s[0] != 0
    ensures |s| > 1 && Sealed(s[1..]) && s == [s[0]] + s[1..]
  {
    SealedSuffix(s, 0);
    SealedSuffix(s, 1);
  }

  lemma {:induction false} ArraySpelt(s: Bytes, d: nat) returns (doc: Doc)
    requires Sealed(s) && ParseValue(s, d).Ok? && s[0] == 91
    ensures Good(doc) && Value(doc) == ParseValue(s, d).value && s == Write(doc, ParseValue(s, d).rest)
    ensures d + Depth(doc) <= 1000
    decreases |s|, 0
  {
    hide ParseValue, ParseItems, SkipSpace, Sealed, Write, Good, Value, Depth;
    Opened(s);
    ArrayUnfold(s, d);
    var t := SkipSpace(s[1..]);
    if t[0] == 93 {
      var gap := GapThen(s[1..]);
      doc := EmptyArray(gap);
      EmptyMeans(gap, t[1..]);
    } else {
      var before := GapSplit(s[1..]);
      var items := ItemsSpelt(t, d + 1, before);
      doc := ArrayDoc(items);
      ArrayMeans(items, ParseValue(s, d).rest);
    }
  }

  lemma EmptyMeans(gap: Bytes, r: Bytes)
    requires Gap(gap)
    ensures Good(EmptyArray(gap)) && Value(EmptyArray(gap)) == Array(End) && Depth(EmptyArray(gap)) == 1
    ensures Write(EmptyArray(gap), r) == [91] + (gap + ([93] + r))
    ensures Good(EmptyObject(gap)) && Value(EmptyObject(gap)) == Object(End) && Depth(EmptyObject(gap)) == 1
    ensures Write(EmptyObject(gap), r) == [123] + (gap + ([125] + r))
  {
  }

  lemma ArrayMeans(items: Items, r: Bytes)
    requires GoodItems(items)
    ensures Good(ArrayDoc(items)) && Value(ArrayDoc(items)) == Array(ItemValues(items))
    ensures Depth(ArrayDoc(items)) == 1 + ItemsDepth(items) && Write(ArrayDoc(items), r) == [91] + WriteItems(items, r)
  {
  }

  lemma ObjectMeans(members: Members, r: Bytes)
    requires GoodMembers(members)
    ensures Good(ObjectDoc(members)) && Value(ObjectDoc(members)) == Object(MemberValues(members))
    ensures Depth(ObjectDoc(members)) == 1 + MembersDepth(members)
    ensures Write(ObjectDoc(members), r) == [123] + WriteMembers(members, r)
  {
  }

  lemma {:induction false} ItemsSpelt(s: Bytes, d: nat, before: Bytes) returns (items: Items)
    requires Sealed(s) && ParseItems(s, d).Ok? && Gap(before)
    ensures GoodItems(items) && ItemValues(items) == ParseItems(s, d).value
    ensures before + s == WriteItems(items, ParseItems(s, d).rest)
    ensures ItemsDepth(items) == 0 || d + ItemsDepth(items) <= 1000
    decreases |s|, 2
  {
    hide ParseValue, ParseItems, SkipSpace, Sealed, Write, Good, Value, Depth;
    CJsonParse.ItemsHead(s, d);
    ItemsUnfold(s, d);
    var doc := ValueSpelt(s, d);
    var r := ParseValue(s, d).rest;
    var t := SkipSpace(r);
    var after := GapThen(r);
    if t[0] == 44 {
      var gap := GapSplit(t[1..]);
      var u := SkipSpace(t[1..]);
      var next := ItemsSpelt(u, d, gap);
      items := OneMore(before, doc, after, next);
    } else {
      items := LastOne(before, doc, after);
    }
  }

  lemma {:induction false} ObjectSpelt(s: Bytes, d: nat) returns (doc: Doc)
    requires Sealed(s) && ParseValue(s, d).Ok? && s[0] == 123
    ensures Good(doc) && Value(doc) == ParseValue(s, d).value && s == Write(doc, ParseValue(s, d).rest)
    ensures d + Depth(doc) <= 1000
    decreases |s|, 0
  {
    hide ParseValue, ParseMembers, SkipSpace, Sealed, Write, Good, Value, Depth;
    Opened(s);
    ObjectUnfold(s, d);
    var t := SkipSpace(s[1..]);
    if t[0] == 125 {
      var gap := GapThen(s[1..]);
      doc := EmptyObject(gap);
      EmptyMeans(gap, t[1..]);
    } else {
      var before := GapSplit(s[1..]);
      var members := MembersSpelt(t, d + 1, before);
      doc := ObjectDoc(members);
      ObjectMeans(members, ParseValue(s, d).rest);
    }
  }

  lemma KeySpelt(s: Bytes, before: Bytes) returns (key: Key)
    requires Sealed(s) && ParseName(s).Ok? && Gap(before)
    ensures GoodKey(key) && PiecesBytes(key.ps) == ParseName(s).value && before + s == WriteKey(key, ParseName(s).rest)
    ensures Sealed(ParseName(s).rest)
  {
    hide ParseString, ParseName, SkipSpace, Sealed, PiecesText, PiecesBytes, GoodString;
    NameUnfold(s);
    var ps := StringSpelt(s);
    var r := ParseString(s).rest;
    StringRest(s, ps, r);
    var middle := GapThen(r);
    var t := SkipSpace(r);
    var behind := GapSplit(t[1..]);
    key := Key(before, ps, middle, behind);
  }

  lemma StringRest(s: Bytes, ps: seq<Piece>, r: Bytes)
    requires Sealed(s) && s == WriteString(ps, r) && r != []
    ensures Sealed(r)
  {
    hide Sealed, PiecesText;
    Carry3([34], PiecesText(ps), [34], r);
    RestSealed(s, r, [34] + (PiecesText(ps) + [34]));
  }

  lemma {:induction false} MembersSpelt(s: Bytes, d: nat, before: Bytes) returns (members: Members)
    requires Sealed(s) && ParseMembers(s, d).Ok? && Gap(before)
    ensures GoodMembers(members) && MemberValues(members) == ParseMembers(s, d).value
    ensures before + s == WriteMembers(members, ParseMembers(s, d).rest)
    ensures MembersDepth(members) == 0 || d + MembersDepth(members) <= 1000
    decreases |s|, 2
  {
    hide ParseValue, ParseMembers, ParseName, SkipSpace, Sealed;
    hide Write, WriteKey, Good, GoodKey, Value, Depth, PiecesBytes;
    MembersHead(s, d);
    MembersUnfold(s, d);
    var key := KeySpelt(s, before);
    var u := ParseName(s).rest;
    var doc := ValueSpelt(u, d);
    var r := ParseValue(u, d).rest;
    var t := SkipSpace(r);
    var after := GapThen(r);
    if t[0] == 44 {
      var gap := GapSplit(t[1..]);
      var x := SkipSpace(t[1..]);
      var next := MembersSpelt(x, d, gap);
      members := NextEntry(key, doc, after, next);
    } else {
      members := LastEntry(key, doc, after);
    }
  }

  // ---- whole texts ----

  lemma MarkSkipped(marked: bool, t: Bytes)
    requires Terminated(t) && |t| > 1 && t[0] < 128
    ensures var s := (if marked then [0xEF, 0xBB, 0xBF] else []) + t;
      Terminated(s) && SkipBom(s) == t
  {
    if marked {
      TerminatedAfter(BOM, t);
      StartsWithPrefix(BOM, t);
      assert (BOM + t)[3..] == t;
    } else {
      assert [] + t == t;
    }
  }

  lemma BodySmall(before: Bytes, doc: Doc, r: Bytes)
    requires Gap(before) && Good(doc) && r != []
    ensures var t := before + Write(doc, r); |t| > 1 && t[0] < 128
  {
    hide Good;
    WriteAppend(doc, [], r);
    assert [] + r == r;
    WriteHead(doc, []);
    WriteHead(doc, r);
    if before != [] {
      assert before[0] in before;
    }
  }

  lemma PageWritten(p: Page)
    ensures PageText(p) + [0]
      == (if p.marked then [0xEF, 0xBB, 0xBF] else []) + (p.before + Write(p.doc, p.after + [0]))
  {
    hide Write;
    WriteAppend(p.doc, p.after, [0]);
    Carry3(if p.marked then [0xEF, 0xBB, 0xBF] else [], p.before, Write(p.doc, p.after), [0]);
  }

  lemma GapAtEnd(after: Bytes)
    requires Gap(after)
    ensures Ends(after + [0]) && SkipSpace(after + [0]) == [0]
  {
    GapSkipped(after, [0]);
    GapEnds(after, [0]);
  }

  /** Behind any text of a document the parser stops, unless a number goes on there. */
  lemma PrefixParses(marked: bool, before: Bytes, doc: Doc, r: Bytes)
    requires Gap(before) && Good(doc) && Depth(doc) <= 1000 && Behind(doc, r + [0])
    requires 0 !in (if marked then [0xEF, 0xBB, 0xBF] else []) + (before + Write(doc, r))
    ensures Parse((if marked then [0xEF, 0xBB, 0xBF] else []) + (before + Write(doc, r)), false)
      == Ok(Value(doc), r + [0])
  {
    hide ParseValue, SkipSpace, SkipBom, Write, Good, Value, Depth, Ends, Gap;
    PageWritten(Page(marked, before, doc, r));
    DocRead(marked, before, doc, r + [0]);
  }

  lemma DocRead(marked: bool, before: Bytes, doc: Doc, r: Bytes)
    requires Gap(before) && Good(doc) && Depth(doc) <= 1000 && Behind(doc, r)
    ensures var s := (if marked then [0xEF, 0xBB, 0xBF] else []) + (before + Write(doc, r));
      Terminated(s) && ParseValue(SkipSpace(SkipBom(s)), 0) == Ok(Value(doc), r)
  {
    hide ParseValue, SkipSpace, SkipBom, Write, Good, Value, Depth, Gap;
    ValueTaken(doc, 0, r);
    WriteHead(doc, r);
    GapSkipped(before, Write(doc, r));
    BodySmall(before, doc, r);
    MarkSkipped(marked, before + Write(doc, r));
  }

  /** Every text of a good page is read, as what the page stands for. */
  lemma PageParses(p: Page)
    requires GoodPage(p) && 0 !in PageText(p)
    ensures Parse(PageText(p), true) == Ok(Value(p.doc), [0])
  {
    hide ParseValue, SkipSpace, SkipBom, Write, Good, Value, Depth, Gap, PageText;
    PageWritten(p);
    GapAtEnd(p.after);
    DocRead(p.marked, p.before, p.doc, p.after + [0]);
  }

  lemma TextSealed(text: Bytes)
    requires 0 !in text
    ensures Sealed(text + [0])
  {
    assert (text + [0])[..|text|] == text;
  }

  lemma MarkSplit(s: Bytes) returns (marked: bool)
    requires Sealed(s)
    ensures s == (if marked then [0xEF, 0xBB, 0xBF] else []) + SkipBom(s) && Sealed(SkipBom(s))
  {
    marked := |s| > 4 && StartsWith(s, BOM);
    if marked {
      StartsWithLength(s, BOM);
      SealedSuffix(s, 3);
      assert s == s[..3] + s[3..];
    } else {
      assert [] + s == s;
    }
  }

  /** Every text the parser reads is the text of a good page. */
  lemma ParsedPage(text: Bytes) returns (p: Page)
    requires 0 !in text && Parse(text, true).Ok?
    ensures GoodPage(p) && Value(p.doc) == Parse(text, true).value && PageText(p) == text
  {
    hide ParseValue, SkipSpace, SkipBom, Write, Good, Value, Depth, Gap, PageText, Sealed;
    var s := text + [0];
    TextSealed(text);
    var marked := MarkSplit(s);
    var before := GapSplit(SkipBom(s));
    var t := SkipSpace(SkipBom(s));
    var doc := ValueSpelt(t, 0);
    var r := ParseValue(t, 0).rest;
    var after := GapSplit(r);
    SealedSuffix(SkipSpace(r), 0);
    assert SkipSpace(r) == [0];
    p := Page(marked, before, doc, after);
    PageWritten(p);
    assert (PageText(p) + [0])[..|PageText(p)|] == PageText(p) && (text + [0])[..|text|] == text;
  }

  /** The parser accepts exactly the texts of documents nested at most 1000 deep, and returns what
      they stand for. */
  lemma ParserExact(text: Bytes, v: Json)
    requires 0 !in text
    ensures Parse(text, true) == Ok(v, [0]) <==> exists p :: GoodPage(p) && PageText(p) == text && Value(p.doc) == v
  {
    hide Parse, PageText, Value, Good, Gap, Depth;
    if Parse(text, true) == Ok(v, [0]) {
      var p := ParsedPage(text);
    }
    if p :| GoodPage(p) && PageText(p) == text && Value(p.doc) == v {
      PageParses(p);
    }
  }

  /** No text means two things. */
  lemma OneMeaning(p: Page, q: Page)
    requires GoodPage(p) && GoodPage(q) && PageText(p) == PageText(q) && 0 !in PageText(p)
    ensures Value(p.doc) == Value(q.doc)
  {
    hide Parse, Value, PageText;
    PageParses(p);
    PageParses(q);
  }

  // ---- code units, in either case of their digits ----

  /** A code unit that is no surrogate reads as the UTF-8 of that code point. */
  lemma CodeRead(u: nat, h: Bytes, r: Bytes) returns (b: Bytes)
    requires SpellsUnit(h, u) && !(0xD800 <= u <= 0xDFFF)
    ensures ParseString([34, 92, 117] + h + [34] + r) == Ok(b, r) && DecodeUtf8(b) == Some(u)
  {
    hide ParseString, SpellsUnit, Spells, Utf8, DecodeUtf8;
    UnitSize(h, u);
    b := PieceRead(Code(u, h), r);
    Utf8Decodes(u);
    assert [34, 92, 117] + h + [34] + r == [34] + ([92, 117] + h + ([34] + r));
  }

  /** So does a pair of surrogates. */
  lemma PairRead(cp: nat, hi: Bytes, lo: Bytes, r: Bytes) returns (b: Bytes)
    requires 0x10000 <= cp <= 0x10FFFF
    requires SpellsUnit(hi, 0xD800 + (cp - 0x10000) / 1024) && SpellsUnit(lo, 0xDC00 + (cp - 0x10000) % 1024)
    ensures ParseString([34, 92, 117] + hi + [92, 117] + lo + [34] + r) == Ok(b, r) && DecodeUtf8(b) == Some(cp)
  {
    hide ParseString, SpellsUnit, Spells, Utf8, DecodeUtf8;
    b := PieceRead(CodePair(cp, hi, lo), r);
    Utf8Decodes(cp);
    assert [34, 92, 117] + hi + [92, 117] + lo + [34] + r == [34] + ([92, 117] + (hi + ([92, 117] + lo)) + ([34] + r));
  }

  lemma PieceRead(p: Piece, r: Bytes) returns (b: Bytes)
    requires GoodPiece(p) && !p.Lone? && !p.BadCode? && p != Plain(34)
    ensures ParseString([34] + (PieceText(p) + ([34] + r))) == Ok(b, r) && b == PieceBytes(p)
  {
    hide ParseString, PieceBytes, GoodPiece;
    var ps := [p];
    assert ps[1..] == [] && PiecesText([]) == [] && GoodPieces([]);
    assert PieceText(p) + [] == PieceText(p);
    PieceEnclosed(p);
    assert GoodPieces(ps) && PiecesText(ps) == PieceText(p);
    StringTaken(ps, r);
    b := PiecesBytes(ps);
    assert PieceBytes(p) + [] == PieceBytes(p);
  }

  lemma PieceEnclosed(p: Piece)
    requires GoodPiece(p) && !p.Lone? && !p.BadCode? && p != Plain(34)
    ensures Enclosed(PieceText(p))
  {
    hide SpellsUnit, Spells, HexByte;
    match p
    case Code(u, h) =>
      CodeEnclosed(u, h, []);
      assert [92, 117] + h == [92, 117] + (h + []);
    case CodePair(cp, hi, lo) =>
      CodeEnclosed(0xDC00 + (cp - 0x10000) % 1024, lo, []);
      assert [92, 117] + lo == [92, 117] + (lo + []);
      CodeEnclosed(0xD800 + (cp - 0x10000) / 1024, hi, [92, 117] + lo);
    case _ =>
  }

  lemma CodeEnclosed(u: int, h: Bytes, y: Bytes)
    requires SpellsUnit(h, u) && Enclosed(y)
    ensures Enclosed([92, 117] + (h + y))
  {
    UnitHex(h, u);
    HexEnclosed(h, y);
    assert ([92, 117] + (h + y))[2..] == h + y;
  }

  lemma UnitHex(h: Bytes, u: int)
    requires SpellsUnit(h, u)
    ensures forall c <- h :: HexByte(c)
  {
    hide Spells, HexByte;
    DigitSpelt(h[0], u / 4096);
    DigitSpelt(h[1], u / 256 % 16);
    DigitSpelt(h[2], u / 16 % 16);
    DigitSpelt(h[3], u % 16);
  }

  lemma {:induction false} HexEnclosed(h: Bytes, y: Bytes)
    requires (forall c <- h :: HexByte(c)) && Enclosed(y)
    ensures Enclosed(h + y)
  {
    if h == [] {
      assert h + y == y;
    } else {
      assert (h + y)[1..] == h[1..] + y && h[0] in h && HexByte(h[0]);
      HexEnclosed(h[1..], y);
    }
  }
}
